# Handles, expression trees and character pictures, in Dafny

This project models four small C++ programs from a course on C++ idioms and proves that their behaviour holds for all inputs:

- **Point handle, count in the box** (`handle1.cpp`). A `Handle` points at a `UPoint` box, which holds a `Point` together with its use count `u_`. Copying a handle shares the box. The destructor and `operator=` lower the count and delete the box at zero. The setters `x(int)` and `y(int)` copy on write: a shared box is split off before the write.
- **Point handle, separate count** (`handle2.cpp`). The `Handle` holds a bare `Point*` and a `UseCount` member. The `UseCount` owns a counter `int*` and has `only`, `reattach` and `makeonly`. The handle operations are built from those three.
- **Expression trees** (`expression.cpp`). An `Expression` handle counts references (`use_`) over `IntNode`, `UnaryNode` and `BinaryNode` nodes. A node's operands are themselves `Expression` members, so deleting a node runs their destructors, which may delete further nodes. `eval()` and `operator<<` read the tree recursively.
- **Character pictures** (`character_picture1.cpp`). A `Picture` is `height_` rows of `width_` characters, stored row by row in one flat buffer. It is built from lines of text, by `frame`, by `&` (one picture on top of the other) and by `|` (side by side). All of these write the buffer through `position(row, col)` and `copyblock`.

The model keeps the source's form:

- **Free store as maps.** Each handle program's free store is a class whose fields are maps: from allocation address to cell (payload, count, deleted flag), and from live handle to pointer.
  - Each C++ operation is a method that updates those maps in the order the code does.
  - Every method preserves the reference-counting invariant. It is proved by one lemma per primitive step.
- **Expression cascade.** The expression destructor cascade is `Destroy`/`DestroyMembers`, two mutually recursive methods.
  - Its final state is given by the pure functions `Drop`/`DropMembers`.
  - `eval` and `print` are functions on an `Expr` datatype. They are linked to the node store by `TreeOf`.
- **Picture buffer.** The picture is a class over an `array<char>`.
  - Every method is proved to leave behind exactly the grid that a pure function on `Grid` values describes.
  - The properties of those functions are proved as lemmas: dimensions, which cell lands where, padding and borders.

Files, one module each:

- `refcount.dfy` (`RefCount`): `Count(m, v)`, the number of keys of a map that map to `v`, with its update lemmas.
- `point.dfy` (`Points`): the `Point` value both handle programs wrap.
- `handle1.dfy` (`HandleOne`), `handle2.dfy` (`HandleTwo`), `expression.dfy` (`ExprTree`), `expression_handle.dfy` (`ExprHandle`), `picture.dfy` (`Pictures`).

## Model

| member | source | states |
|---|---|---|
| HandleOne.RetainThenRelease | ruminations_on_cpp/chapter_6-handle1/handle1.cpp:69-74 | raising a count and lowering it again restores the box exactly |
| HandleOne.CreatePreserves | ruminations_on_cpp/chapter_6-handle1/handle1.cpp:41-43 | a new box with count 1, for a new handle, keeps every count equal to the number of handles on its box |
| HandleOne.CopyPreserves | ruminations_on_cpp/chapter_6-handle1/handle1.cpp:69 | sharing a box with a new handle while raising its count keeps the invariant |
| HandleOne.DestroyPreserves | ruminations_on_cpp/chapter_6-handle1/handle1.cpp:70-74 | lowering the count, and deleting at zero, while dropping the handle keeps the invariant (a box is deleted exactly when no handle uses it) |
| HandleOne.AssignPreserves | ruminations_on_cpp/chapter_6-handle1/handle1.cpp:75-83 | raising the source's count before lowering the target's keeps the invariant, self-assignment and aliases included |
| HandleOne.SplitPreserves | ruminations_on_cpp/chapter_6-handle1/handle1.cpp:90-93 | on a box whose count is not 1 the count is above 1; giving up one share and moving to a fresh copy with count 1 keeps the invariant, and the old box is not deleted |
| HandleOne.WriteUnshared | ruminations_on_cpp/chapter_6-handle1/handle1.cpp:95 | writing the point of a box whose count is 1 keeps the invariant, and no other handle points at that box |
| HandleOne.Heap.Create | ruminations_on_cpp/chapter_6-handle1/handle1.cpp:65-66 | `Handle(x, y)` / `Handle(const Point&)`: a fresh handle on a fresh box with count 1 holding the point; nothing else changes |
| HandleOne.Heap.CreateDefault | ruminations_on_cpp/chapter_6-handle1/handle1.cpp:64 | `Handle()`: a fresh box with count 1 holding (0, 0) |
| HandleOne.Heap.Copy | ruminations_on_cpp/chapter_6-handle1/handle1.cpp:69 | the new handle shares the box, whose count goes up by exactly one; no box is allocated or deleted; both read the same point |
| HandleOne.Heap.Destroy | ruminations_on_cpp/chapter_6-handle1/handle1.cpp:70-74 | the count goes down by one and the box is deleted exactly when it was 1; the delete counter goes up exactly then |
| HandleOne.Heap.Assign | ruminations_on_cpp/chapter_6-handle1/handle1.cpp:75-83 | the handle ends on the source's box and reads its point; the counts are the source's raised then the target's lowered; with one shared box nothing changes; other handles read what they did |
| HandleOne.Heap.X | ruminations_on_cpp/chapter_6-handle1/handle1.cpp:85 | the getter returns the x of the handle's point and changes nothing |
| HandleOne.Heap.Y | ruminations_on_cpp/chapter_6-handle1/handle1.cpp:86 | the getter returns the y of the handle's point and changes nothing |
| HandleOne.Heap.MakeUnique | ruminations_on_cpp/chapter_6-handle1/handle1.cpp:89-94 | the copy-on-write guard: an unshared box is left alone; a shared one loses one share and the handle moves to a fresh copy with count 1; the point read and every other handle's point are unchanged |
| HandleOne.Heap.SetX | ruminations_on_cpp/chapter_6-handle1/handle1.cpp:88-97 | the handle reads the old point with the new x, every other handle reads what it did, no box is deleted, and the handle itself is returned |
| HandleOne.Heap.SetY | ruminations_on_cpp/chapter_6-handle1/handle1.cpp:98-107 | the same for y |
| HandleOne.Heap.Write | ruminations_on_cpp/chapter_6-handle1/handle1.cpp:95 | the in-place write on an unshared box changes that box's point only, with no allocation and no count change |
| HandleOne.Heap.DestroyAll | ruminations_on_cpp/chapter_6-handle1/handle1.cpp:70-74 | destroying all N handles of a box, in any order, deletes it exactly once and touches no other handle |
| HandleOne.ChainedWrites | ruminations_on_cpp/chapter_6-handle1/handle1.cpp:125-132 | after `h2 = h1; h2.x(1).y(2)`, `h1` reads (10, 20) and `h2` reads (1, 2) |
| HandleTwo.NewCountPreserves | ruminations_on_cpp/chapter_6-handle2/handle2.cpp:29 | a new counter of 1 keeps the count invariant |
| HandleTwo.CopyCountPreserves | ruminations_on_cpp/chapter_6-handle2/handle2.cpp:30 | sharing a counter and raising it keeps the count invariant |
| HandleTwo.DropCountPreserves | ruminations_on_cpp/chapter_6-handle2/handle2.cpp:31-35 | lowering a counter, deleting it at zero, keeps the count invariant |
| HandleTwo.ReattachPreserves | ruminations_on_cpp/chapter_6-handle2/handle2.cpp:38-50 | raising the other counter before lowering one's own, then sharing the other, keeps the count invariant |
| HandleTwo.MakeOnlyPreserves | ruminations_on_cpp/chapter_6-handle2/handle2.cpp:52-60 | a counter that is not 1 is above 1; lowering it and taking a new counter of 1 keeps the count invariant |
| HandleTwo.OnlyMeansSoleOwner | ruminations_on_cpp/chapter_6-handle2/handle2.cpp:37 | a handle's counter is 1 exactly when no other handle points at its point |
| HandleTwo.SharedCounterMeansSharedPoint | ruminations_on_cpp/chapter_6-handle2/handle2.cpp:97 | two handles share a counter exactly when they share a point |
| HandleTwo.AssignPreserves | ruminations_on_cpp/chapter_6-handle2/handle2.cpp:103-110 | `reattach` followed by deleting the point on `true` and sharing the source's point keeps the whole invariant |
| HandleTwo.Heap.NewCount | ruminations_on_cpp/chapter_6-handle2/handle2.cpp:29 | `UseCount()`: a fresh counter holding 1 |
| HandleTwo.Heap.CopyCount | ruminations_on_cpp/chapter_6-handle2/handle2.cpp:30 | the copy shares the counter, which goes up by one |
| HandleTwo.Heap.DropCount | ruminations_on_cpp/chapter_6-handle2/handle2.cpp:31-35 | the counter goes down by one and is deleted exactly when it was 1 |
| HandleTwo.Heap.Only | ruminations_on_cpp/chapter_6-handle2/handle2.cpp:37 | `only()` is true exactly when the counter is 1, and changes nothing |
| HandleTwo.Heap.Reattach | ruminations_on_cpp/chapter_6-handle2/handle2.cpp:38-50 | raise the other counter, then lower one's own; true exactly when one's own was a different counter at 1, which is then deleted; always ends sharing the other counter; on one shared counter nothing changes |
| HandleTwo.Heap.MakeOnly | ruminations_on_cpp/chapter_6-handle2/handle2.cpp:52-60 | false and no change when the counter is 1; otherwise true, the old counter lowered (not deleted), and a new counter of 1 |
| HandleTwo.Heap.Create | ruminations_on_cpp/chapter_6-handle2/handle2.cpp:93-94 | a fresh handle on a fresh point and a fresh counter of 1 |
| HandleTwo.Heap.CreateDefault | ruminations_on_cpp/chapter_6-handle2/handle2.cpp:92 | a fresh point (0, 0) with a fresh counter of 1 |
| HandleTwo.Heap.Copy | ruminations_on_cpp/chapter_6-handle2/handle2.cpp:97 | the copy shares point and counter, the counter goes up by one, no point is allocated |
| HandleTwo.Heap.Destroy | ruminations_on_cpp/chapter_6-handle2/handle2.cpp:98-102 | the point is deleted exactly when this handle was its sole owner, and the counter goes down by one |
| HandleTwo.Heap.Assign | ruminations_on_cpp/chapter_6-handle2/handle2.cpp:103-110 | the handle ends on the source's point; the old point is deleted exactly when `reattach` reported the last reference gone; with one shared point nothing changes |
| HandleTwo.Heap.X | ruminations_on_cpp/chapter_6-handle2/handle2.cpp:112 | the getter returns the x of the handle's point and changes nothing |
| HandleTwo.Heap.Y | ruminations_on_cpp/chapter_6-handle2/handle2.cpp:113 | the getter returns the y of the handle's point and changes nothing |
| HandleTwo.Heap.Unshare | ruminations_on_cpp/chapter_6-handle2/handle2.cpp:116-120 | the point is duplicated exactly when `makeonly()` returns true; afterwards the counter is 1 and the point read is the same |
| HandleTwo.Heap.Write | ruminations_on_cpp/chapter_6-handle2/handle2.cpp:121 | the in-place write on a sole-owned point changes that point only |
| HandleTwo.Heap.SetX | ruminations_on_cpp/chapter_6-handle2/handle2.cpp:115-123 | the handle reads the old point with the new x, every other handle reads what it did, and the handle itself is returned |
| HandleTwo.Heap.SetY | ruminations_on_cpp/chapter_6-handle2/handle2.cpp:124-132 | the same for y |
| HandleTwo.ChainedWrites | ruminations_on_cpp/chapter_6-handle2/handle2.cpp:150-156 | after `h2 = h1; h2.x(1).y(2)`, `h1` reads (10, 20) and `h2` reads (1, 2) |
| ExprTree.Message | ruminations_on_cpp/chapter_8-oop_example/expression.cpp:88-119 | the thrown text is "error, bad op ", the operator, then " int UnaryNode" or " in BinaryNode" by the kind of node |
| ExprTree.MessageInjective | ruminations_on_cpp/chapter_8-oop_example/expression.cpp:88-119 | two errors with the same text have the same operator and node kind |
| ExprTree.TruncDivRemainder | ruminations_on_cpp/chapter_8-oop_example/expression.cpp:116-117 | C++ `/` on `int`: the remainder is smaller than the divisor in magnitude and has the dividend's sign (or is zero) |
| ExprTree.TruncDivUnique | ruminations_on_cpp/chapter_8-oop_example/expression.cpp:116-117 | any quotient whose remainder has those two properties is the truncated one, so they fix C++'s `/` |
| ExprTree.Apply | ruminations_on_cpp/chapter_8-oop_example/expression.cpp:107-119 | a binary operator fails exactly when it is none of `+ - *` and not `/` with a non-zero right operand, with the `BinaryNode` error naming it |
| ExprTree.Eval | ruminations_on_cpp/chapter_8-oop_example/expression.cpp:63-120 | an error `eval()` throws always names an operator that occurs in the tree |
| ExprTree.UnaryBadOpFirst | ruminations_on_cpp/chapter_8-oop_example/expression.cpp:84-89 | a unary operator other than "-" throws the `UnaryNode` error without evaluating the operand |
| ExprTree.LeftBeforeRight | ruminations_on_cpp/chapter_8-oop_example/expression.cpp:105-106 | the left operand is evaluated first: an error there wins over any error on the right and over a bad operator; then the right; then the operator |
| ExprTree.DivisionByZero | ruminations_on_cpp/chapter_8-oop_example/expression.cpp:116-119 | dividing by an operand worth zero throws the same error as an unknown operator |
| ExprTree.ArithmeticNeverFails | ruminations_on_cpp/chapter_8-oop_example/expression.cpp:84-120 | a tree of constants, "-" negations and `+ - *` never throws |
| ExprTree.Square | ruminations_on_cpp/chapter_8-oop_example/expression.cpp:157 | `Expression("*", t, t)` evaluates to the square of `t`, or to `t`'s error |
| ExprTree.NatToString | ruminations_on_cpp/chapter_8-oop_example/expression.cpp:69 | the digits written for a non-negative `int` denote it and are canonical: no leading zero, except for `0` itself |
| ExprTree.CanonicalUnique | ruminations_on_cpp/chapter_8-oop_example/expression.cpp:69 | the canonical digit string of a number is unique: any digit string without a leading zero that denotes `n` is the one written for `n` |
| ExprTree.IntToString | ruminations_on_cpp/chapter_8-oop_example/expression.cpp:69 | an `int` is written as its canonical digits, at least one and with no leading zero, after a minus sign when negative |
| ExprTree.ParsePrint | ruminations_on_cpp/chapter_8-oop_example/expression.cpp:69-103 | for trees of non-negative constants and one-character operators from `+-*/`, the fully parenthesised printed form is unambiguous: reading it back (with the help of `LeadingDigits`, which splits off the digits of a constant) gives the same tree, provided what follows does not start with a digit |
| ExprTree.PrintStart | ruminations_on_cpp/chapter_8-oop_example/expression.cpp:69-103 | for trees of non-negative constants and one-character operators from `+-*/`, a printed tree starts with a digit or `(`, never an operator |
| ExprTree.Sample | ruminations_on_cpp/chapter_8-oop_example/expression.cpp:154 | the demonstration tree `(-5)*(3+4)`, whose printed form can be read back |
| ExprTree.SamplePrints | ruminations_on_cpp/chapter_8-oop_example/expression.cpp:154-155 | it prints as `((-5)*(3+4))` |
| ExprTree.SquarePrints | ruminations_on_cpp/chapter_8-oop_example/expression.cpp:157-158 | its square prints as `(((-5)*(3+4))*((-5)*(3+4)))` |
| ExprTree.SampleValues | ruminations_on_cpp/chapter_8-oop_example/expression.cpp:154-158 | it evaluates to -35 and its square to 1225 |
| ExprHandle.AddMembers | ruminations_on_cpp/chapter_8-oop_example/expression.cpp:73-100 | after a node is built, its operand members belong to it and every other member keeps its owner |
| ExprHandle.EvalInIsEval | ruminations_on_cpp/chapter_8-oop_example/expression.cpp:63-151 | evaluation dispatched through the nodes computes `Eval` of the tree the handle stands for |
| ExprHandle.PrintInIsPrint | ruminations_on_cpp/chapter_8-oop_example/expression.cpp:43-103 | printing dispatched through the nodes writes `Print` of the tree the handle stands for |
| ExprHandle.CopyPreserves | ruminations_on_cpp/chapter_8-oop_example/expression.cpp:131-134 | sharing a node with a new handle and raising its `use_` keeps the invariant |
| ExprHandle.NodePreserves | ruminations_on_cpp/chapter_8-oop_example/expression.cpp:123-130 | a new node with `use_` 1 over new member handles keeps the invariant |
| ExprHandle.DropPreserves | ruminations_on_cpp/chapter_8-oop_example/expression.cpp:136-140 | lowering `use_` and dropping the handle keeps the invariant; a node reaching zero becomes pending until its members are destroyed |
| ExprHandle.AssignPreserves | ruminations_on_cpp/chapter_8-oop_example/expression.cpp:142-149 | raising the source's `use_` before lowering the target's keeps the invariant |
| ExprHandle.NoLeak | ruminations_on_cpp/chapter_8-oop_example/expression.cpp:136-140 | when only member handles are left, every node has been deleted: no tree leaks |
| ExprHandle.DropInv | ruminations_on_cpp/chapter_8-oop_example/expression.cpp:136-140 | the whole destructor cascade keeps the invariant and destroys no other handle that is no live node's member |
| ExprHandle.MembersInv | ruminations_on_cpp/chapter_8-oop_example/expression.cpp:92-100 | destroying the members of a deleted node ends its deletion, with the invariant kept |
| ExprHandle.DropKeepsTree | ruminations_on_cpp/chapter_8-oop_example/expression.cpp:136-140 | every other top-level handle survives a destructor and still stands for the same tree |
| ExprHandle.ReassignInv | ruminations_on_cpp/chapter_8-oop_example/expression.cpp:142-149 | assignment keeps the invariant and leaves the handle standing for the source's tree, also when the old node is a child of the new one (`t = Expression("*", t, t)`) |
| ExprHandle.ReassignKeepsTree | ruminations_on_cpp/chapter_8-oop_example/expression.cpp:142-149 | every other top-level handle survives an assignment and still stands for the same tree |
| ExprHandle.Heap.Evaluate | ruminations_on_cpp/chapter_8-oop_example/expression.cpp:151 | `Expression::eval` is `Eval` of the handle's tree |
| ExprHandle.Heap.Show | ruminations_on_cpp/chapter_8-oop_example/expression.cpp:43-46 | `operator<<` writes `Print` of the handle's tree |
| ExprHandle.Heap.Copy | ruminations_on_cpp/chapter_8-oop_example/expression.cpp:131-134 | the copy shares the node, whose `use_` goes up by one, and stands for the same tree |
| ExprHandle.Heap.Allocate | ruminations_on_cpp/chapter_8-oop_example/expression.cpp:123-130 | a fresh node with `use_` 1 and a fresh handle on it; the node's members are recorded as its own |
| ExprHandle.Heap.NewInt | ruminations_on_cpp/chapter_8-oop_example/expression.cpp:123 | `Expression(n)` stands for `Const(n)`; every existing handle keeps its tree |
| ExprHandle.Heap.NewUnary | ruminations_on_cpp/chapter_8-oop_example/expression.cpp:124-126 | `Expression(op, e)` copies the handle `e` rather than the tree: the new node's operand is a new handle on `e`'s own node, whose `use_` rises by one, and the new node, with `use_` 1, stands for `Unary(op, tree of e)`; the whole new store is given |
| ExprHandle.Heap.NewBinary | ruminations_on_cpp/chapter_8-oop_example/expression.cpp:127-130 | `Expression(op, l, r)` copies both handles: the members are new handles on the nodes of `l` and `r`, each of whose `use_` rises by one, and the new node, with `use_` 1, stands for `Binary(op, tree of l, tree of r)`; the whole new store is given |
| ExprHandle.Heap.Destroy | ruminations_on_cpp/chapter_8-oop_example/expression.cpp:136-140 | `~Expression()`: the new store is `Drop` of the old one (`use_` lowered, and at zero the node deleted and its members destroyed), and the invariant holds again |
| ExprHandle.Heap.DestroyMembers | ruminations_on_cpp/chapter_8-oop_example/expression.cpp:92-100 | the member destructors run by `delete`, right operand before left: the new store is `DropMembers` of the old one |
| ExprHandle.Heap.Assign | ruminations_on_cpp/chapter_8-oop_example/expression.cpp:142-149 | the new store is `Reassign` of the old one; the handle stands for the source's tree; every other top-level handle keeps its tree |
| ExprHandle.Heap.Discard | ruminations_on_cpp/chapter_8-oop_example/expression.cpp:136-140 | destroying a top-level handle removes it and keeps every other top-level handle and its tree |
| ExprHandle.MakeNegation | ruminations_on_cpp/chapter_8-oop_example/expression.cpp:154 | `Expression("-", 5)` over a temporary stands for `Unary("-", Const(5))` once the temporary is gone |
| ExprHandle.MakeBinaryConst | ruminations_on_cpp/chapter_8-oop_example/expression.cpp:154 | a binary node over a handle and a temporary constant, the temporary destroyed |
| ExprHandle.MakeBinary | ruminations_on_cpp/chapter_8-oop_example/expression.cpp:154 | `Expression("+", 3, 4)` stands for `Binary("+", Const(3), Const(4))` once its temporaries are gone |
| ExprHandle.MakeSample | ruminations_on_cpp/chapter_8-oop_example/expression.cpp:154 | `t` stands for `(-5)*(3+4)` after every temporary is destroyed |
| ExprHandle.SelfApply | ruminations_on_cpp/chapter_8-oop_example/expression.cpp:157 | `t = Expression(op, t, t)` leaves `t` standing for `Binary(op, old t, old t)`, on a fresh binary node of `use_` 1 whose two members both point at `t`'s old node; that node stays live with `use_` one higher (`t`'s reference went, the two members' came) |
| ExprHandle.Demonstration | ruminations_on_cpp/chapter_8-oop_example/expression.cpp:153-161 | the program prints `((-5)*(3+4))` with value -35, then `(((-5)*(3+4))*((-5)*(3+4)))` with value 1225 |
| Pictures.Pad | ruminations_on_cpp/chapter_9-onclass_course1/character_picture1.cpp:88-100 | a row padded to width `w`: its own characters, then blanks |
| Pictures.Blank | ruminations_on_cpp/chapter_9-onclass_course1/character_picture1.cpp:109-114 | `init(h, w)`: an `h` by `w` grid with every cell blank |
| Pictures.MaxLength | ruminations_on_cpp/chapter_9-onclass_course1/character_picture1.cpp:84-87 | the width is at least every line's length and equal to one of them (0 without lines) |
| Pictures.FromLines | ruminations_on_cpp/chapter_9-onclass_course1/character_picture1.cpp:83-101 | height the number of lines, width the longest; cell (a, b) is the line's character where it has one, else blank |
| Pictures.Overlay | ruminations_on_cpp/chapter_9-onclass_course1/character_picture1.cpp:128-134 | `copyblock` as a value keeps the picture's size (what it does to each cell is `OverlayCells`) |
| Pictures.OverlayCells | ruminations_on_cpp/chapter_9-onclass_course1/character_picture1.cpp:128-134 | cell (r0+i, c0+j) becomes p(i, j) for every cell of p, and every other cell is unchanged |
| Pictures.FramedCells | ruminations_on_cpp/chapter_9-onclass_course1/character_picture1.cpp:146-165 | `frame(p)` is (h+2) by (w+2): `+` in the four corners, `-` on the rest of the top and bottom rows, `\|` on the rest of the side columns, and p(i, j) at (i+1, j+1) |
| Pictures.StackedCells | ruminations_on_cpp/chapter_9-onclass_course1/character_picture1.cpp:167-175 | `top & bottom` is as tall as both and as wide as the wider; top at rows 0.., bottom from row `top.h`; uncovered cells blank |
| Pictures.SideBySideCells | ruminations_on_cpp/chapter_9-onclass_course1/character_picture1.cpp:177-185 | `left \| right` is as wide as both and as tall as the taller; left at column 0, right from column `left.w`; uncovered cells blank |
| Pictures.SetCell | ruminations_on_cpp/chapter_9-onclass_course1/character_picture1.cpp:76 | writing one cell changes that cell and no other |
| Pictures.OffsetInBounds | ruminations_on_cpp/chapter_9-onclass_course1/character_picture1.cpp:63-76 | `row * width + col` lies inside the buffer of `height * width` cells |
| Pictures.OffsetDistinct | ruminations_on_cpp/chapter_9-onclass_course1/character_picture1.cpp:63-76 | distinct cells have distinct buffer offsets |
| Pictures.CopyOntoBlank | ruminations_on_cpp/chapter_9-onclass_course1/character_picture1.cpp:116-127 | `init` followed by `copyblock(0, 0, p)` reproduces p exactly |
| Pictures.FrameByOverlay | ruminations_on_cpp/chapter_9-onclass_course1/character_picture1.cpp:146-165 | drawing the border on a blank picture and copying p to (1, 1) gives `Framed(p)` |
| Pictures.StackByOverlay | ruminations_on_cpp/chapter_9-onclass_course1/character_picture1.cpp:167-175 | copying `top` to (0, 0) and `bottom` to (`top.h`, 0) of a blank picture gives `Stacked(top, bottom)` |
| Pictures.BesideByOverlay | ruminations_on_cpp/chapter_9-onclass_course1/character_picture1.cpp:177-185 | copying `left` to (0, 0) and `right` to (0, `left.w`) of a blank picture gives `SideBySide(left, right)` |
| Pictures.Picture.Image | ruminations_on_cpp/chapter_9-onclass_course1/character_picture1.cpp:70-71 | the buffer read row by row is a grid of `height_` rows of `width_` cells |
| Pictures.Picture.Empty | ruminations_on_cpp/chapter_9-onclass_course1/character_picture1.cpp:82 | `Picture()`: the empty 0 by 0 picture |
| Pictures.Picture.Position | ruminations_on_cpp/chapter_9-onclass_course1/character_picture1.cpp:63 | the buffer at `row * width + col` is the cell at (row, col) |
| Pictures.Picture.SetPosition | ruminations_on_cpp/chapter_9-onclass_course1/character_picture1.cpp:76 | writing through the returned reference changes exactly cell (row, col) |
| Pictures.Picture.Init | ruminations_on_cpp/chapter_9-onclass_course1/character_picture1.cpp:109-114 | a fresh buffer, with the picture `h` by `w` and every cell blank |
| Pictures.Picture.CopyBlock | ruminations_on_cpp/chapter_9-onclass_course1/character_picture1.cpp:128-134 | the nested loops leave behind exactly `Overlay(old picture, r0, c0, p)` |
| Pictures.Picture.CopyRow | ruminations_on_cpp/chapter_9-onclass_course1/character_picture1.cpp:130-132 | the inner loop writes row i of p into one row from column c0 on and nothing else |
| Pictures.Picture.OfLines | ruminations_on_cpp/chapter_9-onclass_course1/character_picture1.cpp:83-101 | the constructor from lines leaves behind exactly `FromLines(lines)` |
| Pictures.Picture.WriteLine | ruminations_on_cpp/chapter_9-onclass_course1/character_picture1.cpp:93-95 | the inner loop writes the characters of one line into its row and nothing else |
| Pictures.Picture.Copy | ruminations_on_cpp/chapter_9-onclass_course1/character_picture1.cpp:116-119 | the copy constructor gives an equal picture in a buffer of its own |
| Pictures.Picture.Assign | ruminations_on_cpp/chapter_9-onclass_course1/character_picture1.cpp:120-127 | the picture becomes equal to the source, in a fresh buffer; self-assignment keeps the buffer and changes nothing |
| Pictures.Frame | ruminations_on_cpp/chapter_9-onclass_course1/character_picture1.cpp:146-165 | `frame(p)` returns a new picture equal to `Framed(p)` |
| Pictures.DrawBorder | ruminations_on_cpp/chapter_9-onclass_course1/character_picture1.cpp:150-161 | the border loops and corner writes turn a blank picture into the frame of a blank one |
| Pictures.Sides | ruminations_on_cpp/chapter_9-onclass_course1/character_picture1.cpp:150-153 | `\|` down both side columns between the top and bottom rows, nothing else |
| Pictures.Rules | ruminations_on_cpp/chapter_9-onclass_course1/character_picture1.cpp:154-157 | `-` along the top and bottom rows between the side columns, nothing else |
| Pictures.Corners | ruminations_on_cpp/chapter_9-onclass_course1/character_picture1.cpp:158-161 | `+` in the four corners, nothing else |
| Pictures.Stack | ruminations_on_cpp/chapter_9-onclass_course1/character_picture1.cpp:167-175 | `top & bottom` returns a new picture equal to `Stacked(top, bottom)` |
| Pictures.Beside | ruminations_on_cpp/chapter_9-onclass_course1/character_picture1.cpp:177-185 | `left \| right` returns a new picture equal to `SideBySide(left, right)` |
| Pictures.ParisRows | ruminations_on_cpp/chapter_9-onclass_course1/character_picture1.cpp:188-189 | the lines "Paris", "in the", "Spring" give the rows "Paris ", "in the", "Spring" |
| Pictures.FramedParisRows | ruminations_on_cpp/chapter_9-onclass_course1/character_picture1.cpp:188-193 | their frame is `+------+`, `\|Paris \|`, `\|in the\|`, `\|Spring\|`, `+------+` |
| Pictures.Demonstration | ruminations_on_cpp/chapter_9-onclass_course1/character_picture1.cpp:187-204 | the sample program's pictures: p and `frame(p)` row by row; `p \| q` is 5 by 14, `q & r` 10 by 14, its frame 12 by 16, each equal to its grid function |

## Left out

- Output: `operator<<` and `std::cout` are left out. Printing is modelled as functions that return the text (`ExprTree.Print`, `ExprHandle.Heap.Show`); the picture's `operator<<` (character_picture1.cpp:136-144) is not modelled.
- The `main` programs are not modelled as programs. Their scenarios are methods with concrete results: the two `ChainedWrites`, `ExprHandle.Demonstration` and `Pictures.Demonstration`. The plain `Point` tests at the start of both handle mains are left out.
- `Point` itself is a value (`Points.Point`). Its setters `x(int)`/`y(int)` become record updates, and their chaining is modelled through `SetX`/`SetY` returning the handle.
- `new` and `delete` are not modelled as memory. An allocation takes the next unused address in a map, allocation never fails, and `delete` sets a `freed` flag on the cell instead of removing it.
- Machine integers are unbounded. Neither the use counts nor `op1 + op2`, `op1 * op2` or `-v` wrap around. C++ `/` is modelled as truncating division (`ExprTree.TruncDiv`).
- The counts are not atomic, and the model is single-threaded.
- Of `#define copy_on_write`, only the enabled branch is modelled.
- Thrown strings become `Failure` values. The division-by-zero case throws the same `BinaryNode` message as an unknown operator, as in expression.cpp:116-119.
- Temporaries of the C++ expression `Expression("*", Expression("-", 5), Expression("+", 3, 4))` are not timed the C++ way. C++ destroys its temporaries at the end of the full expression; `ExprHandle.MakeSample` destroys each as soon as its node is built. The end state is the same, which is what the model proves.
- `Expression` arguments passed by value are collapsed. The by-value copy and its destructor, which cancel out, are not modelled separately from the member copy.
- ExprHandle.DropMembers: it skips a member that is gone or does not point at an older node. Under the invariant `Inv` neither case occurs (`ExprHandle.PendingMembers`).
- The picture's destructor (character_picture1.cpp:102-108) is left out, and so is the `delete[]` in `operator=`. An old buffer in the model simply becomes unreachable.
- The null buffer of `Picture()` is an empty array.
- C strings become `seq<string>` without NUL characters, and `strlen` is the sequence length.
- The comment at character_picture1.cpp:14 shows `|` in the bottom right corner of a frame. The code at line 161 writes `+`, and the model follows the code.
- Pictures.Picture.CopyBlock: it requires the block to fit inside the picture. The source does not check this, and only calls it where it fits; writing outside the buffer is undefined behaviour.
- Pictures.Picture.Position: requires the cell to lie inside the picture, and so does `SetPosition`. The source does not check this; an access outside the buffer is undefined behaviour.
- ExprTree.ParsePrint and ExprTree.PrintStart: proved only for trees of non-negative constants and one-character operators from `+-*/`. `operator<<` prints any operator string and `o << n_` prints a negative constant with a leading `-`, and then the printed text is ambiguous: `Binary("-", Const(3), Const(-5))` prints `(3--5)`, where the second `-` can be read as an operator. ParsePrint also needs the text after the tree not to start with a digit, or the last constant would run on into it.
