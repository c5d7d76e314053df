/**
 Character pictures (`Picture` of the on-class course): a rectangle of characters
 stored row by row in one flat buffer, and the three ways of building a new picture
 from old ones — a frame around one picture, one picture on top of another (`&`),
 and two pictures side by side (`|`).

 `Grid` is the picture as a value, a sequence of rows, and the functions over it
 (`FromLines`, `Overlay`, `Framed`, `Stacked`, `SideBySide`) say what each operation
 produces, cell by cell. The class `Picture` keeps the flat buffer of the source;
 its methods write it through `position(row, col)` as the source does, and each one
 is proved to leave behind exactly the grid its function describes.
 */
module Pictures {

  /** A picture as a value: its height, its width, and its rows. */
  datatype Grid = Grid(height: nat, width: nat, rows: seq<seq<char>>)
  {
    /** There are `height` rows, each `width` characters long. */
    predicate Wf()
    {
      |rows| == height && forall a :: 0 <= a < |rows| ==> |rows[a]| == width
    }

    /** The character at row `a`, column `b`. */
    function Cell(a: nat, b: nat): char
      requires Wf() && a < height && b < width
    {
      rows[a][b]
    }
  }

  function Max(a: nat, b: nat): (m: nat)
    ensures m >= a && m >= b && (m == a || m == b)
  {
    if a >= b then a else b
  }

  /** `n` blanks. */
  function Spaces(n: nat): (s: string)
    ensures |s| == n && forall j :: 0 <= j < n ==> s[j] == ' '
  {
    seq(n, _ => ' ')
  }

  /** The row `s` filled up with blanks to width `w`. */
  function Pad(s: string, w: nat): (r: string)
    requires |s| <= w
    ensures |r| == w
    ensures forall j :: 0 <= j < w ==> r[j] == if j < |s| then s[j] else ' '
  {
    s + Spaces(w - |s|)
  }

  /** `init(h, w)`: an `h` by `w` picture of blanks (`memset(data_, ' ', ...)`). */
  function Blank(h: nat, w: nat): (g: Grid)
    ensures g.Wf() && g.height == h && g.width == w
    ensures forall a, b :: 0 <= a < h && 0 <= b < w ==> g.Cell(a, b) == ' '
  {
    Grid(h, w, seq(h, _ => Spaces(w)))
  }

  /** The length of the longest line, 0 when there are none. */
  function MaxLength(lines: seq<string>): (m: nat)
    ensures forall i :: 0 <= i < |lines| ==> |lines[i]| <= m
    ensures m == 0 || exists i :: 0 <= i < |lines| && |lines[i]| == m
  {
    if |lines| == 0 then 0 else Max(MaxLength(lines[..|lines| - 1]), |lines[|lines| - 1]|)
  }

  /** `Picture(const char* const* array, int n)`: one row per line, each padded with blanks to the longest. */
  function FromLines(lines: seq<string>): (g: Grid)
    ensures g.Wf() && g.height == |lines| && g.width == MaxLength(lines)
    ensures forall a, b :: 0 <= a < |lines| && 0 <= b < g.width ==>
              g.Cell(a, b) == if b < |lines[a]| then lines[a][b] else ' '
  {
    var w := MaxLength(lines);
    Grid(|lines|, w, seq(|lines|, i requires 0 <= i < |lines| => Pad(lines[i], w)))
  }

  /** `copyblock(r0, c0, p)` on `base`: the cells covered by `p`, placed at row `r0` and column `c0`, replaced by those of `p`. */
  function Overlay(base: Grid, r0: nat, c0: nat, p: Grid): (g: Grid)
    requires base.Wf() && p.Wf() && r0 + p.height <= base.height && c0 + p.width <= base.width
    ensures g.Wf() && g.height == base.height && g.width == base.width
  {
    Grid(base.height, base.width,
         seq(base.height, a requires 0 <= a < base.height =>
               if r0 <= a < r0 + p.height
               then base.rows[a][..c0] + p.rows[a - r0] + base.rows[a][c0 + p.width..]
               else base.rows[a]))
  }

  /** The top and bottom rule of a frame around a picture `w` wide. */
  function Rule(w: nat): (s: string)
  {
    ['+'] + seq(w, _ => '-') + ['+']
  }

  /** `frame(p)`: `p` inside a border of `+` corners, `-` rules and `|` sides. */
  function Framed(p: Grid): (g: Grid)
    requires p.Wf()
    ensures g.Wf()
  {
    Grid(p.height + 2, p.width + 2,
         [Rule(p.width)] + seq(p.height, a requires 0 <= a < p.height => ['|'] + p.rows[a] + ['|']) + [Rule(p.width)])
  }

  /** `top & bottom`: `top` above `bottom`, both aligned on the left and padded with blanks to the wider. */
  function Stacked(top: Grid, bottom: Grid): (g: Grid)
    requires top.Wf() && bottom.Wf()
    ensures g.Wf()
  {
    var w := Max(top.width, bottom.width);
    Grid(top.height + bottom.height, w,
         seq(top.height, a requires 0 <= a < top.height => Pad(top.rows[a], w))
         + seq(bottom.height, a requires 0 <= a < bottom.height => Pad(bottom.rows[a], w)))
  }

  /** Row `a` of `g`, or a blank row of its width below its last one. */
  function RowOrBlank(g: Grid, a: nat): (s: string)
    requires g.Wf()
    ensures |s| == g.width
  {
    if a < g.height then g.rows[a] else Spaces(g.width)
  }

  /** `left | right`: `left` beside `right`, both aligned at the top and padded with blanks to the taller. */
  function SideBySide(left: Grid, right: Grid): (g: Grid)
    requires left.Wf() && right.Wf()
    ensures g.Wf()
  {
    var h := Max(left.height, right.height);
    Grid(h, left.width + right.width, seq(h, a requires 0 <= a < h => RowOrBlank(left, a) + RowOrBlank(right, a)))
  }

  /** Two grids of the same size that agree on every cell are the same grid. */
  lemma GridExt(g: Grid, h: Grid)
    requires g.Wf() && h.Wf() && g.height == h.height && g.width == h.width
    requires forall a, b :: 0 <= a < g.height && 0 <= b < g.width ==> g.Cell(a, b) == h.Cell(a, b)
    ensures g == h
  {
    forall a | 0 <= a < g.height
      ensures g.rows[a] == h.rows[a]
    {
      forall b | 0 <= b < g.width
        ensures g.rows[a][b] == h.rows[a][b]
      {
        assert g.Cell(a, b) == h.Cell(a, b);
      }
    }
  }

  /** `copyblock` puts `p` into the block it covers and leaves every cell outside it alone. */
  lemma OverlayCells(base: Grid, r0: nat, c0: nat, p: Grid)
    requires base.Wf() && p.Wf() && r0 + p.height <= base.height && c0 + p.width <= base.width
    ensures forall a, b :: 0 <= a < base.height && 0 <= b < base.width ==>
              Overlay(base, r0, c0, p).Cell(a, b)
              == if r0 <= a < r0 + p.height && c0 <= b < c0 + p.width then p.Cell(a - r0, b - c0) else base.Cell(a, b)
  {
    var g := Overlay(base, r0, c0, p);
    forall a, b | 0 <= a < base.height && 0 <= b < base.width
      ensures g.Cell(a, b)
              == if r0 <= a < r0 + p.height && c0 <= b < c0 + p.width then p.Cell(a - r0, b - c0) else base.Cell(a, b)
    {
      if r0 <= a < r0 + p.height {
        var row := base.rows[a][..c0] + p.rows[a - r0] + base.rows[a][c0 + p.width..];
        assert g.rows[a] == row;
        if b < c0 {
          assert row[b] == base.rows[a][b];
        } else if b < c0 + p.width {
          assert row[b] == p.rows[a - r0][b - c0];
        } else {
          assert row[b] == base.rows[a][b];
        }
      }
    }
  }

  /**
   A framed picture is two rows and two columns larger; its corners are `+`, the rest of
   its top and bottom rows `-`, the rest of its first and last columns `|`, and inside
   the border is the picture.
   */
  lemma FramedCells(p: Grid)
    requires p.Wf()
    ensures Framed(p).height == p.height + 2 && Framed(p).width == p.width + 2
    ensures forall a, b :: 0 <= a < p.height + 2 && 0 <= b < p.width + 2 ==>
              Framed(p).Cell(a, b)
              == if (a == 0 || a == p.height + 1) && (b == 0 || b == p.width + 1) then '+'
                 else if a == 0 || a == p.height + 1 then '-'
                 else if b == 0 || b == p.width + 1 then '|'
                 else p.Cell(a - 1, b - 1)
  {
    var g := Framed(p);
    forall a, b | 0 <= a < p.height + 2 && 0 <= b < p.width + 2
      ensures g.Cell(a, b)
              == if (a == 0 || a == p.height + 1) && (b == 0 || b == p.width + 1) then '+'
                 else if a == 0 || a == p.height + 1 then '-'
                 else if b == 0 || b == p.width + 1 then '|'
                 else p.Cell(a - 1, b - 1)
    {
      if a == 0 || a == p.height + 1 {
        assert g.rows[a] == Rule(p.width);
      } else {
        assert g.rows[a] == ['|'] + p.rows[a - 1] + ['|'];
      }
    }
  }

  /** `top & bottom` is as tall as both together and as wide as the wider; what neither covers is blank. */
  lemma StackedCells(top: Grid, bottom: Grid)
    requires top.Wf() && bottom.Wf()
    ensures Stacked(top, bottom).height == top.height + bottom.height
    ensures Stacked(top, bottom).width == Max(top.width, bottom.width)
    ensures forall a, b :: 0 <= a < top.height + bottom.height && 0 <= b < Max(top.width, bottom.width) ==>
              Stacked(top, bottom).Cell(a, b)
              == if a < top.height then (if b < top.width then top.Cell(a, b) else ' ')
                 else (if b < bottom.width then bottom.Cell(a - top.height, b) else ' ')
  {
    var g := Stacked(top, bottom);
    var w := Max(top.width, bottom.width);
    forall a, b | 0 <= a < top.height + bottom.height && 0 <= b < w
      ensures g.Cell(a, b)
              == if a < top.height then (if b < top.width then top.Cell(a, b) else ' ')
                 else (if b < bottom.width then bottom.Cell(a - top.height, b) else ' ')
    {
      if a < top.height {
        assert g.rows[a] == Pad(top.rows[a], w);
      } else {
        assert g.rows[a] == Pad(bottom.rows[a - top.height], w);
      }
    }
  }

  /** `left | right` is as wide as both together and as tall as the taller; what neither covers is blank. */
  lemma SideBySideCells(left: Grid, right: Grid)
    requires left.Wf() && right.Wf()
    ensures SideBySide(left, right).height == Max(left.height, right.height)
    ensures SideBySide(left, right).width == left.width + right.width
    ensures forall a, b :: 0 <= a < Max(left.height, right.height) && 0 <= b < left.width + right.width ==>
              SideBySide(left, right).Cell(a, b)
              == if b < left.width then (if a < left.height then left.Cell(a, b) else ' ')
                 else (if a < right.height then right.Cell(a, b - left.width) else ' ')
  {
    var g := SideBySide(left, right);
    var h := Max(left.height, right.height);
    forall a, b | 0 <= a < h && 0 <= b < left.width + right.width
      ensures g.Cell(a, b)
              == if b < left.width then (if a < left.height then left.Cell(a, b) else ' ')
                 else (if a < right.height then right.Cell(a, b - left.width) else ' ')
    {
      assert g.rows[a] == RowOrBlank(left, a) + RowOrBlank(right, a);
    }
  }

  /** The index of row `row`, column `col` in a buffer stored row by row, `width` cells to a row. */
  function Offset(row: int, col: int, width: int): int
  {
    row * width + col
  }

  lemma OffsetInBounds(row: int, col: int, h: int, w: int)
    requires 0 <= row < h && 0 <= col < w
    ensures 0 <= Offset(row, col, w) < h * w
  {
    assert row * w <= (h - 1) * w;
  }

  /** Distinct cells of a row-by-row buffer have distinct offsets. */
  lemma OffsetDistinct(a: int, b: int, c: int, d: int, w: int)
    requires 0 <= b < w && 0 <= d < w && (a != c || b != d)
    ensures Offset(a, b, w) != Offset(c, d, w)
  {
    if a < c {
      assert (a + 1) * w <= c * w;
    } else if c < a {
      assert (c + 1) * w <= a * w;
    }
  }

  /** The rows of a buffer of `h * w` cells stored row by row. */
  ghost function Rows(cells: seq<char>, h: nat, w: nat): (rows: seq<seq<char>>)
    requires |cells| == h * w
  {
    seq(h, a requires 0 <= a < h =>
          seq(w, b requires 0 <= b < w => (OffsetInBounds(a, b, h, w); cells[Offset(a, b, w)])))
  }

  /** `g` with the cell at row `a`, column `b` replaced by `c`. */
  function SetCell(g: Grid, a: nat, b: nat, c: char): (r: Grid)
    requires g.Wf() && a < g.height && b < g.width
    ensures r.Wf() && r.height == g.height && r.width == g.width
    ensures forall x, y :: 0 <= x < g.height && 0 <= y < g.width ==>
              r.Cell(x, y) == if x == a && y == b then c else g.Cell(x, y)
  {
    Grid(g.height, g.width, g.rows[a := g.rows[a][b := c]])
  }

  /**
   The source's `Picture`: `height_` rows of `width_` characters kept row by row in
   the buffer `data_`.
   */
  class Picture {
    var height: nat
    var width: nat
    var data: array<char>

    ghost predicate Valid()
      reads this
    {
      data.Length == height * width
    }

    /** The picture the buffer holds. */
    ghost function Image(): (g: Grid)
      reads this, data
      requires Valid()
      ensures g.Wf() && g.height == height && g.width == width
    {
      Grid(height, width, Rows(data[..], height, width))
    }

    /** `Picture()`: the empty picture (its null buffer is an empty array here). */
    constructor Empty()
      ensures Valid() && Image() == Blank(0, 0) && fresh(data)
    {
      height, width := 0, 0;
      data := new char[0];
      new;
      GridExt(Image(), Blank(0, 0));
    }

    /** The const `position(row, col)`: the character at that cell. */
    function Position(row: nat, col: nat): (c: char)
      reads this, data
      requires Valid() && row < height && col < width
      ensures c == Image().Cell(row, col)
    {
      OffsetInBounds(row, col, height, width);
      data[Offset(row, col, width)]
    }

    /** Writing through the reference `position(row, col)` returns: that one cell changes. */
    method SetPosition(row: nat, col: nat, c: char)
      requires Valid() && row < height && col < width
      modifies data
      ensures Valid() && Image() == SetCell(old(Image()), row, col, c)
    {
      OffsetInBounds(row, col, height, width);
      data[Offset(row, col, width)] := c;
      forall a, b | 0 <= a < height && 0 <= b < width
        ensures Image().Cell(a, b) == SetCell(old(Image()), row, col, c).Cell(a, b)
      {
        OffsetInBounds(a, b, height, width);
        if a != row || b != col {
          OffsetDistinct(a, b, row, col, width);
        }
      }
      GridExt(Image(), SetCell(old(Image()), row, col, c));
    }

    /** `init(h, w)`: a fresh buffer for an `h` by `w` picture, every cell blank. */
    method Init(h: nat, w: nat)
      modifies this
      ensures Valid() && height == h && width == w && fresh(data)
      ensures Image() == Blank(h, w)
    {
      height, width := h, w;
      data := new char[h * w](_ => ' ');
      forall a, b | 0 <= a < h && 0 <= b < w
        ensures Image().Cell(a, b) == ' '
      {
        OffsetInBounds(a, b, h, w);
      }
      GridExt(Image(), Blank(h, w));
    }

    /**
     `copyblock(row, col, p)`: the cells of `p` written into this picture with the top
     left corner of `p` at row `row`, column `col`.
     */
    method CopyBlock(row: nat, col: nat, p: Picture)
      requires Valid() && p.Valid() && p.data != data
      requires row + p.height <= height && col + p.width <= width
      modifies data
      ensures Valid() && Image() == Overlay(old(Image()), row, col, old(p.Image()))
    {
      ghost var base := Image();
      ghost var src := p.Image();
      for i := 0 to p.height
        invariant Valid() && p.Valid() && p.Image() == src
        invariant forall a, b :: 0 <= a < height && 0 <= b < width ==>
                    Image().Cell(a, b)
                    == if row <= a < row + i && col <= b < col + p.width
                       then src.Cell(a - row, b - col) else base.Cell(a, b)
      {
        CopyRow(row + i, col, p, i);
      }
      OverlayCells(base, row, col, src);
      GridExt(Image(), Overlay(base, row, col, src));
    }

    /** The inner loop of `copyblock`: row `i` of `p` written into row `r` from column `col` on. */
    method CopyRow(r: nat, col: nat, p: Picture, i: nat)
      requires Valid() && p.Valid() && p.data != data
      requires r < height && col + p.width <= width && i < p.height
      modifies data
      ensures Valid() && p.Image() == old(p.Image())
      ensures forall a, b :: 0 <= a < height && 0 <= b < width ==>
                Image().Cell(a, b)
                == if a == r && col <= b < col + p.width then p.Image().Cell(i, b - col) else old(Image()).Cell(a, b)
    {
      ghost var base := Image();
      ghost var src := p.Image();
      for j := 0 to p.width
        invariant Valid() && p.Valid() && p.Image() == src
        invariant forall a, b :: 0 <= a < height && 0 <= b < width ==>
                    Image().Cell(a, b)
                    == if a == r && col <= b < col + j then src.Cell(i, b - col) else base.Cell(a, b)
      {
        SetPosition(r, col + j, p.Position(i, j));
      }
    }

    /**
     `Picture(array, n)`: one row per line; the longest line sets the width and the
     cells past the end of a shorter line keep the blank `init` put there.
     */
    constructor OfLines(lines: seq<string>)
      ensures Valid() && Image() == FromLines(lines) && fresh(data)
    {
      var w := 0;
      for i := 0 to |lines|
        invariant w == MaxLength(lines[..i])
      {
        assert lines[..i + 1][..i] == lines[..i];
        w := Max(w, |lines[i]|);
      }
      assert lines[..|lines|] == lines;
      height, width, data := 0, 0, new char[0];
      new;
      Init(|lines|, w);
      for i := 0 to |lines|
        invariant Valid() && height == |lines| && width == w && fresh(data)
        invariant forall a, b :: 0 <= a < height && 0 <= b < width ==>
                    Image().Cell(a, b) == if a < i && b < |lines[a]| then lines[a][b] else ' '
      {
        WriteLine(i, lines[i]);
      }
      GridExt(Image(), FromLines(lines));
    }

    /** The inner loop of `Picture(array, n)`: the characters of `line` written into row `r` from column 0 on. */
    method WriteLine(r: nat, line: string)
      requires Valid() && r < height && |line| <= width
      modifies data
      ensures Valid()
      ensures forall a, b :: 0 <= a < height && 0 <= b < width ==>
                Image().Cell(a, b) == if a == r && b < |line| then line[b] else old(Image()).Cell(a, b)
    {
      ghost var base := Image();
      for j := 0 to |line|
        invariant Valid()
        invariant forall a, b :: 0 <= a < height && 0 <= b < width ==>
                    Image().Cell(a, b) == if a == r && b < j then line[b] else base.Cell(a, b)
      {
        SetPosition(r, j, line[j]);
      }
    }

    /** The copy constructor: a picture of its own with the same cells as `p`. */
    constructor Copy(p: Picture)
      requires p.Valid()
      ensures Valid() && Image() == p.Image() && fresh(data)
    {
      height, width, data := 0, 0, new char[0];
      new;
      Init(p.height, p.width);
      CopyBlock(0, 0, p);
      CopyOntoBlank(p.Image());
    }

    /**
     `operator=`: this picture takes the cells of `p` into a buffer of its own; assigning
     a picture to itself changes nothing.
     */
    method Assign(p: Picture)
      requires Valid() && p.Valid()
      modifies this
      ensures Valid() && Image() == old(p.Image())
      ensures p == this ==> data == old(data)
      ensures p != this ==> fresh(data)
    {
      if this != p {
        Init(p.height, p.width);
        CopyBlock(0, 0, p);
        CopyOntoBlank(p.Image());
      }
    }
  }

  /** A picture copied onto a blank one of its own size is that picture. */
  lemma CopyOntoBlank(g: Grid)
    requires g.Wf()
    ensures Overlay(Blank(g.height, g.width), 0, 0, g) == g
  {
    OverlayCells(Blank(g.height, g.width), 0, 0, g);
    GridExt(Overlay(Blank(g.height, g.width), 0, 0, g), g);
  }

  /** `frame` draws the border around a blank middle and then copies `p` into the middle. */
  lemma FrameByOverlay(g: Grid)
    requires g.Wf()
    ensures Overlay(Framed(Blank(g.height, g.width)), 1, 1, g) == Framed(g)
  {
    var border := Framed(Blank(g.height, g.width));
    FramedCells(Blank(g.height, g.width));
    FramedCells(g);
    OverlayCells(border, 1, 1, g);
    GridExt(Overlay(border, 1, 1, g), Framed(g));
  }

  /** `top & bottom` copies `top` to the top left corner of a blank picture and `bottom` right under it. */
  lemma StackByOverlay(top: Grid, bottom: Grid)
    requires top.Wf() && bottom.Wf()
    ensures Overlay(Overlay(Blank(top.height + bottom.height, Max(top.width, bottom.width)), 0, 0, top),
                    top.height, 0, bottom)
            == Stacked(top, bottom)
  {
    var blank := Blank(top.height + bottom.height, Max(top.width, bottom.width));
    var first := Overlay(blank, 0, 0, top);
    var second := Overlay(first, top.height, 0, bottom);
    OverlayCells(blank, 0, 0, top);
    OverlayCells(first, top.height, 0, bottom);
    StackedCells(top, bottom);
    forall a, b | 0 <= a < second.height && 0 <= b < second.width
      ensures second.Cell(a, b) == Stacked(top, bottom).Cell(a, b)
    {
      if a < top.height {
        assert second.Cell(a, b) == first.Cell(a, b);
      }
    }
    GridExt(second, Stacked(top, bottom));
  }

  /** `left | right` copies `left` to the top left corner of a blank picture and `right` right beside it. */
  lemma BesideByOverlay(left: Grid, right: Grid)
    requires left.Wf() && right.Wf()
    ensures Overlay(Overlay(Blank(Max(left.height, right.height), left.width + right.width), 0, 0, left),
                    0, left.width, right)
            == SideBySide(left, right)
  {
    var blank := Blank(Max(left.height, right.height), left.width + right.width);
    var first := Overlay(blank, 0, 0, left);
    OverlayCells(blank, 0, 0, left);
    OverlayCells(first, 0, left.width, right);
    SideBySideCells(left, right);
    GridExt(Overlay(first, 0, left.width, right), SideBySide(left, right));
  }

  /** `frame(p)`: a new picture holding `p` inside a border. */
  method Frame(p: Picture) returns (r: Picture)
    requires p.Valid()
    ensures fresh(r) && fresh(r.data) && r.Valid() && r.Image() == Framed(p.Image())
  {
    r := new Picture.Empty();
    r.Init(p.height + 2, p.width + 2);
    DrawBorder(r);
    r.CopyBlock(1, 1, p);
    FrameByOverlay(p.Image());
  }

  /** The border `frame` draws on a blank picture at least two cells high and wide: the sides, the rules, then the corners. */
  method DrawBorder(r: Picture)
    requires r.Valid() && r.height >= 2 && r.width >= 2 && r.Image() == Blank(r.height, r.width)
    modifies r.data
    ensures r.Valid() && r.Image() == Framed(Blank(r.height - 2, r.width - 2))
  {
    ghost var g0 := r.Image();
    Sides(r);
    ghost var g1 := r.Image();
    Rules(r);
    ghost var g2 := r.Image();
    Corners(r);
    ghost var g3 := r.Image();
    var border := Framed(Blank(r.height - 2, r.width - 2));
    FramedCells(Blank(r.height - 2, r.width - 2));
    forall a, b | 0 <= a < r.height && 0 <= b < r.width
      ensures g3.Cell(a, b) == border.Cell(a, b)
    {
      assert g0.Cell(a, b) == ' ';
    }
    GridExt(g3, border);
  }

  /** The first loop of `frame`: `|` down both sides, below the top row and above the bottom row. */
  method Sides(r: Picture)
    requires r.Valid() && r.height >= 2 && r.width >= 2
    modifies r.data
    ensures r.Valid()
    ensures forall a, b :: 0 <= a < r.height && 0 <= b < r.width ==>
              r.Image().Cell(a, b)
              == if 1 <= a < r.height - 1 && (b == 0 || b == r.width - 1) then '|' else old(r.Image()).Cell(a, b)
  {
    ghost var base := r.Image();
    var h, w := r.height, r.width;
    for i := 1 to h - 1
      invariant r.Valid()
      invariant forall a, b :: 0 <= a < h && 0 <= b < w ==>
                  r.Image().Cell(a, b) == if 1 <= a < i && (b == 0 || b == w - 1) then '|' else base.Cell(a, b)
    {
      r.SetPosition(i, 0, '|');
      r.SetPosition(i, w - 1, '|');
    }
  }

  /** The second loop of `frame`: `-` along the top and bottom rows, between the first and last columns. */
  method Rules(r: Picture)
    requires r.Valid() && r.height >= 2 && r.width >= 2
    modifies r.data
    ensures r.Valid()
    ensures forall a, b :: 0 <= a < r.height && 0 <= b < r.width ==>
              r.Image().Cell(a, b)
              == if (a == 0 || a == r.height - 1) && 1 <= b < r.width - 1 then '-' else old(r.Image()).Cell(a, b)
  {
    ghost var base := r.Image();
    var h, w := r.height, r.width;
    for j := 1 to w - 1
      invariant r.Valid()
      invariant forall a, b :: 0 <= a < h && 0 <= b < w ==>
                  r.Image().Cell(a, b) == if (a == 0 || a == h - 1) && 1 <= b < j then '-' else base.Cell(a, b)
    {
      r.SetPosition(0, j, '-');
      r.SetPosition(h - 1, j, '-');
    }
  }

  /** The four corner writes of `frame`. */
  method Corners(r: Picture)
    requires r.Valid() && r.height >= 2 && r.width >= 2
    modifies r.data
    ensures r.Valid()
    ensures forall a, b :: 0 <= a < r.height && 0 <= b < r.width ==>
              r.Image().Cell(a, b)
              == if (a == 0 || a == r.height - 1) && (b == 0 || b == r.width - 1) then '+'
                 else old(r.Image()).Cell(a, b)
  {
    var h, w := r.height, r.width;
    r.SetPosition(0, 0, '+');
    r.SetPosition(0, w - 1, '+');
    r.SetPosition(h - 1, 0, '+');
    r.SetPosition(h - 1, w - 1, '+');
  }

  /** `top & bottom`: a new picture with `top` above `bottom`. */
  method Stack(top: Picture, bottom: Picture) returns (r: Picture)
    requires top.Valid() && bottom.Valid()
    ensures fresh(r) && fresh(r.data) && r.Valid() && r.Image() == Stacked(top.Image(), bottom.Image())
  {
    ghost var upper, lower := top.Image(), bottom.Image();
    r := new Picture.Empty();
    r.Init(top.height + bottom.height, Max(top.width, bottom.width));
    r.CopyBlock(0, 0, top);
    assert bottom.Image() == lower;
    r.CopyBlock(top.height, 0, bottom);
    assert top.Image() == upper && bottom.Image() == lower;
    StackByOverlay(upper, lower);
  }

  /** `left | right`: a new picture with `left` beside `right`. */
  method Beside(left: Picture, right: Picture) returns (r: Picture)
    requires left.Valid() && right.Valid()
    ensures fresh(r) && fresh(r.data) && r.Valid() && r.Image() == SideBySide(left.Image(), right.Image())
  {
    ghost var first, second := left.Image(), right.Image();
    r := new Picture.Empty();
    r.Init(Max(left.height, right.height), left.width + right.width);
    r.CopyBlock(0, 0, left);
    assert right.Image() == second;
    r.CopyBlock(0, left.width, right);
    assert left.Image() == first && right.Image() == second;
    BesideByOverlay(first, second);
  }

  /** The lines the sample program builds its first picture from. */
  const ParisLines: seq<string> := ["Paris", "in the", "Spring"]

  lemma ParisRows()
    ensures FromLines(ParisLines).rows == ["Paris ", "in the", "Spring"]
  {
    assert MaxLength(ParisLines) == 6 by {
      assert ParisLines[..2][..1] == ["Paris"];
      assert ParisLines[..2] == ["Paris", "in the"];
      assert ParisLines[..1][..0] == [];
    }
    var g := FromLines(ParisLines);
    assert Spaces(0) == "" && Spaces(1) == " ";
    assert g.rows[0] == "Paris " && g.rows[1] == "in the" && g.rows[2] == "Spring";
  }

  lemma FramedParisRows()
    ensures Framed(FromLines(ParisLines)).rows == ["+------+", "|Paris |", "|in the|", "|Spring|", "+------+"]
  {
    ParisRows();
    var f := Framed(FromLines(ParisLines));
    assert seq(6, _ => '-') == "------";
    assert f.rows[0] == "+------+" && f.rows[4] == "+------+";
    assert f.rows[1] == "|Paris |";
    assert f.rows[2] == "|in the|";
    assert f.rows[3] == "|Spring|";
  }

  /**
   The pictures of the sample program: `p` from the three lines, `q = frame(p)`,
   `r = p | q`, `s = q & r` and `frame(s)`.
   */
  method Demonstration() returns (p: Picture, q: Picture, r: Picture, s: Picture, t: Picture)
    ensures p.Valid() && q.Valid() && r.Valid() && s.Valid() && t.Valid()
    ensures p.Image().rows == ["Paris ", "in the", "Spring"]
    ensures q.Image().rows == ["+------+", "|Paris |", "|in the|", "|Spring|", "+------+"]
    ensures r.Image() == SideBySide(p.Image(), q.Image()) && r.height == 5 && r.width == 14
    ensures s.Image() == Stacked(q.Image(), r.Image()) && s.height == 10 && s.width == 14
    ensures t.Image() == Framed(s.Image()) && t.height == 12 && t.width == 16
  {
    p := new Picture.OfLines(ParisLines);
    ParisRows();
    q := Frame(p);
    FramedParisRows();
    r := Beside(p, q);
    s := Stack(q, r);
    t := Frame(s);
  }
}

