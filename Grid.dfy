/**
 * The 9x9 grid of text fields shared by the applet and the per-cell key
 * listeners. Every cell has a text, an editable flag, a background that is
 * either the valid or the invalid colour, and the crash list of its listener.
 * The cells are indexed by coordinates, so the listeners' references to each
 * other become positions in one table.
 */
module Grid {

  /** A cell coordinate inside the 9x9 grid. */
  datatype Coord = Coord(row: int, col: int)

  predicate InGrid(c: Coord) {
    0 <= c.row < 9 && 0 <= c.col < 9
  }

  type Pos = c: Coord | InGrid(c) witness Coord(0, 0)

  /** The cell at row-major index i, nine cells per row. */
  function PosAt(i: int): (p: Pos)
    requires 0 <= i < 81
    ensures p.row * 9 + p.col == i
  {
    Coord(i / 9, i % 9)
  }

  /** Row-major index of a cell, as used by the 81-character puzzle string. */
  function Index(p: Pos): (i: nat)
    ensures i < 81 && PosAt(i) == p
  {
    p.row * 9 + p.col
  }

  // ---------------------------------------------------------------------
  // The operations the listeners apply to their ArrayList of crashes.
  // ---------------------------------------------------------------------

  /** How often x occurs in s. */
  function Count<T(==)>(s: seq<T>, x: T): (n: nat)
  {
    if s == [] then 0
    else
      assert s == [s[0]] + s[1..];
      (if s[0] == x then 1 else 0) + Count(s[1..], x)
  }

  lemma {:induction false} CountZero<T>(s: seq<T>, x: T)
    ensures Count(s, x) == 0 <==> x !in s
  {
    if s != [] {
      CountZero(s[1..], x);
      assert s == [s[0]] + s[1..];
    }
  }

  lemma {:induction false} CountAppend<T>(a: seq<T>, b: seq<T>, x: T)
    ensures Count(a + b, x) == Count(a, x) + Count(b, x)
  {
    if a == [] {
      assert a + b == b;
    } else {
      assert (a + b)[1..] == a[1..] + b;
      CountAppend(a[1..], b, x);
    }
  }

  /** One more element at the end counts once more if it is x. */
  lemma CountSnoc<T>(s: seq<T>, y: T, x: T)
    ensures Count(s + [y], x) == Count(s, x) + (if y == x then 1 else 0)
  {
    CountAppend(s, [y], x);
  }

  /** `ArrayList.remove(Object)`: drop the first occurrence of x, if any. */
  function RemoveFirst<T(==)>(s: seq<T>, x: T): (r: seq<T>)
    ensures x !in s ==> r == s
    ensures x in s ==> |r| == |s| - 1
  {
    if s == [] then []
    else
      assert s == [s[0]] + s[1..];
      if s[0] == x then s[1..]
      else [s[0]] + RemoveFirst(s[1..], x)
  }

  /** `remove(x)` takes exactly one x out of a list holding one, and nothing else. */
  lemma {:induction false} RemoveFirstCount<T>(s: seq<T>, x: T, y: T)
    requires x in s
    ensures Count(RemoveFirst(s, x), y) == Count(s, y) - (if y == x then 1 else 0)
  {
    assert s == [s[0]] + s[1..];
    if s[0] != x {
      RemoveFirstCount(s[1..], x, y);
      assert ([s[0]] + RemoveFirst(s[1..], x))[1..] == RemoveFirst(s[1..], x);
    }
  }

  /** k successive `remove(x)` calls. */
  function DropFirst<T(==)>(s: seq<T>, x: T, k: nat): seq<T>
  {
    if k == 0 then s else RemoveFirst(DropFirst(s, x, k - 1), x)
  }

  /** s with every occurrence of x taken out, the rest in order. */
  function Without<T(==)>(s: seq<T>, x: T): (r: seq<T>)
    ensures x !in r
  {
    if s == [] then []
    else
      assert s == [s[0]] + s[1..];
      if s[0] == x then Without(s[1..], x)
      else [s[0]] + Without(s[1..], x)
  }

  /** Without(s, x) holds no x and every other element as often as s does. */
  lemma {:induction false} WithoutCount<T>(s: seq<T>, x: T, y: T)
    ensures Count(Without(s, x), y) == if y == x then 0 else Count(s, y)
  {
    if s != [] {
      WithoutCount(s[1..], x, y);
      if s[0] != x {
        assert ([s[0]] + Without(s[1..], x))[1..] == Without(s[1..], x);
      }
    }
  }

  /** k copies of x: what a list gains from k successive `add(x)` calls. */
  function Repeat<T>(x: T, k: nat): (r: seq<T>)
    ensures |r| == k
  {
    if k == 0 then [] else Repeat(x, k - 1) + [x]
  }

  lemma {:induction false} RepeatCount<T>(x: T, k: nat, y: T)
    ensures Count(Repeat(x, k), y) == if y == x then k else 0
  {
    if k > 0 {
      RepeatCount(x, k - 1, y);
      CountSnoc(Repeat(x, k - 1), x, y);
    }
  }

  lemma {:induction false} RepeatAdd<T>(x: T, j: nat, k: nat)
    ensures Repeat(x, j) + Repeat(x, k) == Repeat(x, j + k)
  {
    if k > 0 {
      RepeatAdd(x, j, k - 1);
    }
  }

  lemma {:induction false} DropFirstCount<T>(s: seq<T>, x: T, k: nat)
    requires k <= Count(s, x)
    ensures Count(DropFirst(s, x, k), x) == Count(s, x) - k
  {
    if k > 0 {
      DropFirstCount(s, x, k - 1);
      CountZero(DropFirst(s, x, k - 1), x);
      RemoveFirstCount(DropFirst(s, x, k - 1), x, x);
    }
  }

  lemma {:induction false} WithoutOfAbsent<T>(s: seq<T>, x: T)
    requires x !in s
    ensures Without(s, x) == s
  {
    if s != [] {
      assert s == [s[0]] + s[1..];
      WithoutOfAbsent(s[1..], x);
    }
  }

  lemma {:induction false} WithoutRemoveFirst<T>(s: seq<T>, x: T)
    ensures Without(RemoveFirst(s, x), x) == Without(s, x)
  {
    if s != [] && s[0] != x {
      WithoutRemoveFirst(s[1..], x);
      assert ([s[0]] + RemoveFirst(s[1..], x))[1..] == RemoveFirst(s[1..], x);
    }
  }

  /** Removing x as often as it occurs leaves exactly the other elements, in order. */
  lemma {:induction false} DropAllIsWithout<T>(s: seq<T>, x: T)
    ensures DropFirst(s, x, Count(s, x)) == Without(s, x)
  {
    var n := Count(s, x);
    DropFirstCount(s, x, n);
    DropWithoutInvariant(s, x, n);
    CountZero(DropFirst(s, x, n), x);
    WithoutOfAbsent(DropFirst(s, x, n), x);
  }

  lemma {:induction false} DropWithoutInvariant<T>(s: seq<T>, x: T, k: nat)
    ensures Without(DropFirst(s, x, k), x) == Without(s, x)
  {
    if k > 0 {
      DropWithoutInvariant(s, x, k - 1);
      WithoutRemoveFirst(DropFirst(s, x, k - 1), x);
    }
  }

  // ---------------------------------------------------------------------
  // The crash relation as a table of 81 lists, indexed by Index.
  // ---------------------------------------------------------------------

  /** B occurs in A's crash list exactly as often as A occurs in B's. */
  ghost predicate SymmetricLists(c: seq<seq<Pos>>)
    requires |c| == 81
  {
    forall a: Pos, b: Pos :: Count(c[Index(a)], b) == Count(c[Index(b)], a)
  }

  /** No cell is recorded as crashing with itself. */
  ghost predicate IrreflexiveLists(c: seq<seq<Pos>>)
    requires |c| == 81
  {
    forall a: Pos :: a !in c[Index(a)]
  }

  /** Every cell other than `except` is flagged invalid iff its list is non-empty. */
  ghost predicate FlagsMatchExcept(c: seq<seq<Pos>>, v: seq<bool>, except: Coord)
    requires |c| == 81 && |v| == 81
  {
    forall p: Pos :: p != except ==> (v[Index(p)] <==> c[Index(p)] != [])
  }

  /** Every text is empty or a single character, as the listeners and the puzzle loader write them. */
  ghost predicate ShortTexts(ts: seq<string>)
    requires |ts| == 81
  {
    forall p: Pos :: |ts[Index(p)]| <= 1
  }

  /** The table c after `add(x)` on a's list. */
  function Add(c: seq<seq<Pos>>, a: Pos, x: Pos): (r: seq<seq<Pos>>)
    requires |c| == 81
    ensures |r| == 81
  {
    c[Index(a) := c[Index(a)] + [x]]
  }

  /** The table c after `remove(x)` on a's list. */
  function Drop(c: seq<seq<Pos>>, a: Pos, x: Pos): (r: seq<seq<Pos>>)
    requires |c| == 81
    ensures |r| == 81
  {
    c[Index(a) := RemoveFirst(c[Index(a)], x)]
  }

  /**
   * The text fields and listener state of the whole grid, one entry per cell
   * indexed by Index: `texts[Index(p)]` is p's text, `editable[Index(p)]`
   * whether p takes typing, `crashes[Index(p)]` the crash list of p's
   * listener, and `invalid[Index(p)]` says that p has one of the two invalid
   * background colours.
   */
  class Board {
    var texts: seq<string>
    var editable: seq<bool>
    var crashes: seq<seq<Pos>>
    var invalid: seq<bool>

    ghost predicate Valid()
      reads this
    {
      |texts| == 81 && |editable| == 81 && |crashes| == 81 && |invalid| == 81
    }

    function Text(p: Pos): string
      reads this
      requires Valid()
    {
      texts[Index(p)]
    }

    function IsEditable(p: Pos): bool
      reads this
      requires Valid()
    {
      editable[Index(p)]
    }

    function Invalid(p: Pos): bool
      reads this
      requires Valid()
    {
      invalid[Index(p)]
    }

    function Crash(p: Pos): seq<Pos>
      reads this
      requires Valid()
    {
      crashes[Index(p)]
    }

    /** The crash relation the listeners maintain together: symmetric and irreflexive. */
    ghost predicate Relation()
      reads this
      requires Valid()
    {
      SymmetricLists(crashes) && IrreflexiveLists(crashes)
    }

    ghost predicate FlagsAgreeExcept(except: Coord)
      reads this
      requires Valid()
    {
      FlagsMatchExcept(crashes, invalid, except)
    }

    /** Every cell shows the invalid colour iff it crashes with some cell. */
    ghost predicate FlagsAgree()
      reads this
      requires Valid()
    {
      FlagsMatchExcept(crashes, invalid, Coord(-1, -1))
    }

    /** The grid as `initGrid` builds it: empty, editable, valid, no crashes. */
    constructor ()
      ensures Valid()
      ensures forall p: Pos :: Text(p) == "" && IsEditable(p) && !Invalid(p) && Crash(p) == []
      ensures Relation() && FlagsAgree() && ShortTexts(texts)
    {
      texts := seq(81, i => "");
      editable := seq(81, i => true);
      crashes := seq(81, i => []);
      invalid := seq(81, i => false);
    }
  }
}
