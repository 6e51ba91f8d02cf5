/** The arrow-word page: the fixed 10x10 layout and its clue map, the
    de-duplicated and split clue lists, and the classification of each
    cell with its arrows. */
module MotsFleches {
  import opened Wrappers
  import opened Seqs
  import opened Crossword

  datatype Orientation = Horizontal | Vertical

  /** `getOrientation`: "right" and "left" are horizontal, any other
      direction vertical. */
  function GetOrientation(dir: string): (o: Orientation)
    ensures o == Horizontal <==> dir == "right" || dir == "left"
  {
    if dir == "right" || dir == "left" then Horizontal else Vertical
  }

  // ---------------------------------------------------------------------
  // uniqByKey

  /** The keys of a sequence, in order. */
  function KeysOf<T, K>(s: seq<T>, key: T -> K): (ks: seq<K>)
    ensures |ks| == |s| && forall i :: 0 <= i < |s| ==> ks[i] == key(s[i])
  {
    seq(|s|, i requires 0 <= i < |s| => key(s[i]))
  }

  /** `uniqByKey`: the filter that keeps an element when its key was not
      seen before it. Written on the last element: the filter of `s + [x]`
      is the filter of `s`, followed by `x` when its key is new. */
  function UniqByKey<T, K(==)>(s: seq<T>, key: T -> K): (r: seq<T>)
    ensures |r| <= |s|
    ensures forall x :: x in r ==> x in s
    ensures Distinct(KeysOf(r, key))
    ensures forall i :: 0 <= i < |s| ==> key(s[i]) in KeysOf(r, key)
  {
    if |s| == 0 then []
    else
      var init := s[..|s| - 1];
      var last := s[|s| - 1];
      var r0 := UniqByKey(init, key);
      if key(last) in KeysOf(init, key) then
        assert forall i :: 0 <= i < |s| ==> key(s[i]) in KeysOf(r0, key) by {
          forall i | 0 <= i < |s| ensures key(s[i]) in KeysOf(r0, key) {
            if i == |s| - 1 {
              var j :| 0 <= j < |init| && KeysOf(init, key)[j] == key(last);
              assert key(init[j]) in KeysOf(r0, key);
            } else {
              assert s[i] == init[i];
            }
          }
        }
        r0
      else
        var r := r0 + [last];
        assert forall i :: 0 <= i < |r0| ==> KeysOf(r, key)[i] == KeysOf(r0, key)[i];
        assert key(last) !in KeysOf(r0, key) by {
          forall j | 0 <= j < |r0| ensures KeysOf(r0, key)[j] != key(last) {
            assert r0[j] in r0;
            var k :| 0 <= k < |init| && init[k] == r0[j];
            assert KeysOf(init, key)[k] == key(r0[j]);
          }
        }
        assert forall i :: 0 <= i < |s| ==> key(s[i]) in KeysOf(r, key) by {
          forall i | 0 <= i < |s| ensures key(s[i]) in KeysOf(r, key) {
            if i < |s| - 1 {
              assert s[i] == init[i];
              var j :| 0 <= j < |r0| && KeysOf(r0, key)[j] == key(s[i]);
              assert KeysOf(r, key)[j] == key(s[i]);
            } else {
              assert KeysOf(r, key)[|r0|] == key(last);
            }
          }
        }
        r
  }

  /** The element kept for each key is the first one with that key: an
      element is kept exactly when no earlier element shares its key. */
  lemma {:induction false} UniqKeepsFirst<T, K>(s: seq<T>, key: T -> K, i: nat)
    requires i < |s|
    requires forall j :: 0 <= j < i ==> key(s[j]) != key(s[i])
    ensures s[i] in UniqByKey(s, key)
  {
    var init := s[..|s| - 1];
    if i < |s| - 1 {
      assert s[i] == init[i];
      UniqKeepsFirst(init, key, i);
    } else {
      assert forall j :: 0 <= j < |init| ==> KeysOf(init, key)[j] == key(s[j]);
    }
  }

  /** No element before position `i` shares its key. */
  predicate IsFirst<T, K(==)>(s: seq<T>, key: T -> K, i: nat)
    requires i < |s|
  {
    forall j :: 0 <= j < i ==> key(s[j]) != key(s[i])
  }

  /** The positions of first occurrences of each key, in increasing
      order. */
  function FirstPositions<T, K(==)>(s: seq<T>, key: T -> K): (ps: seq<nat>)
    ensures forall k :: 0 <= k < |ps| ==> ps[k] < |s| && IsFirst(s, key, ps[k])
    ensures forall k1, k2 :: 0 <= k1 < k2 < |ps| ==> ps[k1] < ps[k2]
    ensures forall i :: 0 <= i < |s| && IsFirst(s, key, i) ==> i in ps
  {
    if |s| == 0 then []
    else
      var init := s[..|s| - 1];
      var ps0 := FirstPositions(init, key);
      assert forall i :: 0 <= i < |init| ==> (IsFirst(init, key, i) <==> IsFirst(s, key, i)) by {
        forall i | 0 <= i < |init| ensures IsFirst(init, key, i) <==> IsFirst(s, key, i) {
          assert forall j :: 0 <= j <= i ==> init[j] == s[j];
        }
      }
      if IsFirst(s, key, |s| - 1) then ps0 + [|s| - 1] else ps0
  }

  /** `uniqByKey` keeps order: its k-th element is the element at the k-th
      first-occurrence position of the input. */
  lemma {:induction false} UniqPreservesOrder<T, K>(s: seq<T>, key: T -> K)
    ensures var r, ps := UniqByKey(s, key), FirstPositions(s, key);
            && |r| == |ps|
            && forall k :: 0 <= k < |r| ==> ps[k] < |s| && r[k] == s[ps[k]]
  {
    if |s| > 0 {
      var init := s[..|s| - 1];
      UniqPreservesOrder(init, key);
      UniqLastStep(s, key);
      var r0, ps0 := UniqByKey(init, key), FirstPositions(init, key);
      var r, ps := UniqByKey(s, key), FirstPositions(s, key);
      if IsFirst(s, key, |s| - 1) {
        assert r == r0 + [s[|s| - 1]] && ps == ps0 + [|s| - 1];
      } else {
        assert r == r0 && ps == ps0;
      }
      forall k | 0 <= k < |r| ensures ps[k] < |s| && r[k] == s[ps[k]] {
        if k < |r0| {
          assert r[k] == r0[k] == init[ps0[k]] && ps[k] == ps0[k];
        }
      }
    }
  }

  /** `uniqByKey` of a non-empty list: the last element is appended exactly
      when its key is new. */
  lemma {:induction false} UniqLastStep<T, K>(s: seq<T>, key: T -> K)
    requires |s| > 0
    ensures UniqByKey(s, key) ==
              UniqByKey(s[..|s| - 1], key) + (if IsFirst(s, key, |s| - 1) then [s[|s| - 1]] else [])
  {
    var init := s[..|s| - 1];
    var last := s[|s| - 1];
    assert key(last) in KeysOf(init, key) <==> !IsFirst(s, key, |s| - 1) by {
      if key(last) in KeysOf(init, key) {
        var j :| 0 <= j < |init| && KeysOf(init, key)[j] == key(last);
        assert key(s[j]) == key(s[|s| - 1]);
      }
      if !IsFirst(s, key, |s| - 1) {
        var j :| 0 <= j < |s| - 1 && key(s[j]) == key(s[|s| - 1]);
        assert KeysOf(init, key)[j] == key(last);
      }
    }
  }

  /** Filtering an already de-duplicated list changes nothing. */
  lemma {:induction false} UniqIdempotent<T, K>(s: seq<T>, key: T -> K)
    ensures UniqByKey(UniqByKey(s, key), key) == UniqByKey(s, key)
  {
    UniqOfDistinct(UniqByKey(s, key), key);
  }

  /** A list whose keys are already distinct passes through unchanged. */
  lemma {:induction false} UniqOfDistinct<T, K>(s: seq<T>, key: T -> K)
    requires Distinct(KeysOf(s, key))
    ensures UniqByKey(s, key) == s
  {
    if |s| > 0 {
      var init := s[..|s| - 1];
      assert KeysOf(init, key) == KeysOf(s, key)[..|s| - 1];
      UniqOfDistinct(init, key);
      assert forall j :: 0 <= j < |init| ==> KeysOf(init, key)[j] == KeysOf(s, key)[j];
      assert init + [s[|s| - 1]] == s;
    }
  }

  // ---------------------------------------------------------------------
  // The clue lists

  /** One line of the definitions panel. */
  datatype Line = Line(number: int, dir: string, orientation: Orientation, text: string)

  /** The key `uniqByKey` uses for the panel: number, orientation and text
      (the page joins them with `|`; as neither a number nor an orientation
      contains `|`, the joined string identifies the triple). */
  function LineKey(l: Line): (int, Orientation, string) {
    (l.number, l.orientation, l.text)
  }

  function ClueOrder(c: ClueEntry): Key {
    Key(c.number, 0)
  }

  /** The lines of one clue: one per direction, none when it has none. */
  function LinesOf(c: ClueEntry): (ls: seq<Line>)
    ensures |ls| == |c.directions.OrElse([])|
    ensures forall k :: 0 <= k < |ls| ==>
              var d := c.directions.OrElse([])[k];
              ls[k] == Line(c.number, d.dir, GetOrientation(d.dir), d.text)
  {
    var ds := c.directions.OrElse([]);
    seq(|ds|, k requires 0 <= k < |ds| => Line(c.number, ds[k].dir, GetOrientation(ds[k].dir), ds[k].text))
  }

  /** The `flatMap` over the sorted clues. */
  function FlatLines(cs: seq<ClueEntry>): (ls: seq<Line>)
  {
    if |cs| == 0 then [] else LinesOf(cs[0]) + FlatLines(cs[1..])
  }

  /** Every line comes from one direction of one clue and carries that
      clue's number, and every direction of every clue gives a line. */
  lemma {:induction false} FlatLinesContents(cs: seq<ClueEntry>)
    ensures forall l :: l in FlatLines(cs) <==>
              exists c, d :: c in cs && d in c.directions.OrElse([]) && l == Line(c.number, d.dir, GetOrientation(d.dir), d.text)
  {
    if |cs| > 0 {
      FlatLinesContents(cs[1..]);
      var here := LinesOf(cs[0]);
      forall l | l in here
        ensures exists d :: d in cs[0].directions.OrElse([]) && l == Line(cs[0].number, d.dir, GetOrientation(d.dir), d.text)
      {
        var k :| 0 <= k < |here| && here[k] == l;
        assert cs[0].directions.OrElse([])[k] in cs[0].directions.OrElse([]);
      }
      forall d | d in cs[0].directions.OrElse([])
        ensures Line(cs[0].number, d.dir, GetOrientation(d.dir), d.text) in here
      {
        var k :| 0 <= k < |cs[0].directions.OrElse([])| && cs[0].directions.OrElse([])[k] == d;
        assert here[k] == Line(cs[0].number, d.dir, GetOrientation(d.dir), d.text);
      }
      forall c | c in cs ensures c == cs[0] || c in cs[1..] {
        var k :| 0 <= k < |cs| && cs[k] == c;
        if k > 0 {
          assert cs[1..][k - 1] == c;
        }
      }
    }
  }

  /** Sorted clues give lines in non-decreasing number order. */
  lemma {:induction false} FlatLinesOrdered(cs: seq<ClueEntry>)
    requires forall i, j :: 0 <= i < j < |cs| ==> cs[i].number <= cs[j].number
    ensures forall i, j :: 0 <= i < j < |FlatLines(cs)| ==> FlatLines(cs)[i].number <= FlatLines(cs)[j].number
  {
    if |cs| > 0 {
      var rest := cs[1..];
      FlatLinesOrdered(rest);
      FlatLinesContents(rest);
      var here, tail := LinesOf(cs[0]), FlatLines(rest);
      forall j | 0 <= j < |tail| ensures cs[0].number <= tail[j].number {
        assert tail[j] in tail;
        var c, d :| c in rest && d in c.directions.OrElse([]) && tail[j] == Line(c.number, d.dir, GetOrientation(d.dir), d.text);
        var k :| 0 <= k < |rest| && rest[k] == c;
        assert cs[k + 1] == c;
      }
      var all := here + tail;
      forall i, j | 0 <= i < j < |all| ensures all[i].number <= all[j].number {
        if j >= |here| && i < |here| {
          assert all[j] == tail[j - |here|];
        } else if i >= |here| {
          assert all[i] == tail[i - |here|] && all[j] == tail[j - |here|];
        }
      }
    }
  }

  function ByOrientation(ls: seq<Line>, o: Orientation): (r: seq<Line>)
    ensures forall l :: l in r <==> l in ls && l.orientation == o
  {
    if |ls| == 0 then []
    else (if ls[0].orientation == o then [ls[0]] else []) + ByOrientation(ls[1..], o)
  }

  /** The two columns split the list: together they hold each line exactly
      as often as the list does. */
  lemma {:induction false} ColumnsPartition(ls: seq<Line>)
    ensures multiset(ByOrientation(ls, Horizontal)) + multiset(ByOrientation(ls, Vertical)) == multiset(ls)
  {
    if |ls| > 0 {
      var x, rest := ls[0], ls[1..];
      ColumnsPartition(rest);
      var h, v := ByOrientation(rest, Horizontal), ByOrientation(rest, Vertical);
      assert ls == [x] + rest;
      ConsOnEitherSide(x, h, v, rest);
      if x.orientation == Horizontal {
        assert ByOrientation(ls, Horizontal) == [x] + h && ByOrientation(ls, Vertical) == v;
      } else {
        assert ByOrientation(ls, Horizontal) == h && ByOrientation(ls, Vertical) == [x] + v;
      }
    }
  }

  /** What the definitions panel shows. */
  datatype Panel = Panel(horizontals: seq<Line>, verticals: seq<Line>)

  /** The clue values sorted by number, flattened, de-duplicated on
      (number, orientation, text) and split by orientation. */
  function BuildPanel(values: seq<ClueEntry>): (p: Panel)
    ensures forall l :: l in p.horizontals ==> l.orientation == Horizontal
    ensures forall l :: l in p.verticals ==> l.orientation == Vertical
    ensures Distinct(KeysOf(p.horizontals + p.verticals, LineKey))
    ensures forall c, d :: c in values && d in c.directions.OrElse([]) ==>
              (c.number, GetOrientation(d.dir), d.text) in KeysOf(p.horizontals + p.verticals, LineKey)
    ensures forall l :: l in p.horizontals + p.verticals ==>
              exists c, d :: c in values && d in c.directions.OrElse([]) && l == Line(c.number, d.dir, GetOrientation(d.dir), d.text)
    ensures NumbersAscend(p.horizontals) && NumbersAscend(p.verticals)
  {
    var unique := UniqByKey(FlatLines(SortBy(values, ClueOrder)), LineKey);
    PanelCovers(values, unique);
    SplitKeysDistinct(unique);
    PanelSound(values, unique);
    PanelOrdered(values, unique);
    Split(unique)
  }

  /** Clue numbers never decrease along the list. */
  predicate NumbersAscend(ls: seq<Line>) {
    forall i, j :: 0 <= i < j < |ls| ==> ls[i].number <= ls[j].number
  }

  /** Every line of either column is one direction of one clue. */
  lemma {:induction false} PanelSound(values: seq<ClueEntry>, unique: seq<Line>)
    requires unique == UniqByKey(FlatLines(SortBy(values, ClueOrder)), LineKey)
    ensures forall l :: l in Split(unique).horizontals + Split(unique).verticals ==>
              exists c, d :: c in values && d in c.directions.OrElse([]) && l == Line(c.number, d.dir, GetOrientation(d.dir), d.text)
  {
    var sorted := SortBy(values, ClueOrder);
    FlatLinesContents(sorted);
    forall l | l in Split(unique).horizontals + Split(unique).verticals
      ensures exists c, d :: c in values && d in c.directions.OrElse([]) && l == Line(c.number, d.dir, GetOrientation(d.dir), d.text)
    {
      assert l in unique;
      var c, d :| c in sorted && d in c.directions.OrElse([]) && l == Line(c.number, d.dir, GetOrientation(d.dir), d.text);
      assert c in multiset(values);
    }
  }

  /** Each column lists its lines by non-decreasing clue number: the clues
      are sorted, and de-duplicating and splitting keep order. */
  lemma {:induction false} PanelOrdered(values: seq<ClueEntry>, unique: seq<Line>)
    requires unique == UniqByKey(FlatLines(SortBy(values, ClueOrder)), LineKey)
    ensures NumbersAscend(Split(unique).horizontals) && NumbersAscend(Split(unique).verticals)
  {
    var sorted := SortBy(values, ClueOrder);
    assert forall i, j :: 0 <= i < j < |sorted| ==> sorted[i].number <= sorted[j].number by {
      forall i, j | 0 <= i < j < |sorted| ensures sorted[i].number <= sorted[j].number {
        assert KeyLe(ClueOrder(sorted[i]), ClueOrder(sorted[j]));
      }
    }
    var lines := FlatLines(sorted);
    FlatLinesOrdered(sorted);
    UniqPreservesOrder(lines, LineKey);
    var ps := FirstPositions(lines, LineKey);
    forall i, j | 0 <= i < j < |unique| ensures unique[i].number <= unique[j].number {
      assert unique[i] == lines[ps[i]] && unique[j] == lines[ps[j]];
    }
    ColumnAscends(unique, Horizontal);
    ColumnAscends(unique, Vertical);
  }

  /** Keeping the lines of one orientation keeps number order. */
  lemma {:induction false} ColumnAscends(ls: seq<Line>, o: Orientation)
    requires NumbersAscend(ls)
    ensures NumbersAscend(ByOrientation(ls, o))
  {
    if |ls| > 0 {
      var rest := ls[1..];
      AscendsTail(ls);
      ColumnAscends(rest, o);
      var tail := ByOrientation(rest, o);
      forall k | 0 <= k < |tail| ensures ls[0].number <= tail[k].number {
        assert tail[k] in rest;
        var m :| 0 <= m < |rest| && rest[m] == tail[k];
        assert rest[m] == ls[m + 1];
      }
      if ls[0].orientation == o {
        AscendsCons(ls[0], tail);
      }
    }
  }

  lemma {:induction false} AscendsTail(ls: seq<Line>)
    requires |ls| > 0 && NumbersAscend(ls)
    ensures NumbersAscend(ls[1..])
  {
    var rest := ls[1..];
    forall i, j | 0 <= i < j < |rest| ensures rest[i].number <= rest[j].number {
      assert rest[i] == ls[i + 1] && rest[j] == ls[j + 1];
    }
  }

  lemma {:induction false} AscendsCons(x: Line, t: seq<Line>)
    requires NumbersAscend(t) && forall k :: 0 <= k < |t| ==> x.number <= t[k].number
    ensures NumbersAscend([x] + t)
  {
    var col := [x] + t;
    forall i, j | 0 <= i < j < |col| ensures col[i].number <= col[j].number {
      assert col[j] == t[j - 1];
      if i > 0 {
        assert col[i] == t[i - 1];
      }
    }
  }

  /** The two columns of a de-duplicated list. */
  function Split(unique: seq<Line>): Panel {
    Panel(ByOrientation(unique, Horizontal), ByOrientation(unique, Vertical))
  }

  /** Every direction of every clue has its key in the panel. */
  lemma {:induction false} PanelCovers(values: seq<ClueEntry>, unique: seq<Line>)
    requires unique == UniqByKey(FlatLines(SortBy(values, ClueOrder)), LineKey)
    ensures forall c, d :: c in values && d in c.directions.OrElse([]) ==>
              (c.number, GetOrientation(d.dir), d.text) in KeysOf(Split(unique).horizontals + Split(unique).verticals, LineKey)
  {
    forall c, d | c in values && d in c.directions.OrElse([])
      ensures (c.number, GetOrientation(d.dir), d.text) in KeysOf(Split(unique).horizontals + Split(unique).verticals, LineKey)
    {
      CoveredDirection(values, unique, c, d);
    }
  }

  /** One direction of one clue. */
  lemma {:induction false} CoveredDirection(values: seq<ClueEntry>, unique: seq<Line>, c: ClueEntry, d: Direction)
    requires unique == UniqByKey(FlatLines(SortBy(values, ClueOrder)), LineKey)
    requires c in values && d in c.directions.OrElse([])
    ensures (c.number, GetOrientation(d.dir), d.text) in KeysOf(Split(unique).horizontals + Split(unique).verticals, LineKey)
  {
    var lines := FlatLines(SortBy(values, ClueOrder));
    var line := Line(c.number, d.dir, GetOrientation(d.dir), d.text);
    LineOfClue(values, c, d);
    var i :| 0 <= i < |lines| && lines[i] == line;
    assert LineKey(lines[i]) in KeysOf(unique, LineKey);
    var j :| 0 <= j < |unique| && KeysOf(unique, LineKey)[j] == LineKey(line);
    InSplit(unique, unique[j]);
  }

  /** Each direction of a clue gives a line of the sorted, flattened list. */
  lemma {:induction false} LineOfClue(values: seq<ClueEntry>, c: ClueEntry, d: Direction)
    requires c in values && d in c.directions.OrElse([])
    ensures Line(c.number, d.dir, GetOrientation(d.dir), d.text) in FlatLines(SortBy(values, ClueOrder))
  {
    var sorted := SortBy(values, ClueOrder);
    assert c in multiset(sorted);
    FlatLinesContents(sorted);
  }

  /** Every line of the list lands in one of the two columns. */
  lemma {:induction false} InSplit(unique: seq<Line>, l: Line)
    requires l in unique
    ensures l in Split(unique).horizontals + Split(unique).verticals
    ensures LineKey(l) in KeysOf(Split(unique).horizontals + Split(unique).verticals, LineKey)
  {
    var both := Split(unique).horizontals + Split(unique).verticals;
    if l.orientation == Horizontal {
      assert l in Split(unique).horizontals;
    } else {
      assert l in Split(unique).verticals;
    }
    assert l in both;
    var m :| 0 <= m < |both| && both[m] == l;
    assert KeysOf(both, LineKey)[m] == LineKey(l);
  }

  /** The two columns together keep the keys distinct. */
  lemma {:induction false} SplitKeysDistinct(unique: seq<Line>)
    requires Distinct(KeysOf(unique, LineKey))
    ensures Distinct(KeysOf(Split(unique).horizontals + Split(unique).verticals, LineKey))
  {
    var p := Split(unique);
    ColumnsPartition(unique);
    var both := p.horizontals + p.verticals;
    assert multiset(both) == multiset(unique);
    DistinctKeysOfPermutation(unique, both);
  }

  /** Rearranging a list keeps its keys distinct. */
  lemma {:induction false} DistinctKeysOfPermutation(a: seq<Line>, b: seq<Line>)
    requires multiset(a) == multiset(b) && Distinct(KeysOf(a, LineKey))
    ensures Distinct(KeysOf(b, LineKey))
  {
    var ka, kb := KeysOf(a, LineKey), KeysOf(b, LineKey);
    forall k | k in Elems(kb) ensures k in Elems(ka) {
      var i :| 0 <= i < |b| && kb[i] == k;
      assert b[i] in multiset(a);
      var x :| 0 <= x < |a| && a[x] == b[i];
      assert ka[x] == k;
    }
    forall k | k in Elems(ka) ensures k in Elems(kb) {
      var i :| 0 <= i < |a| && ka[i] == k;
      assert a[i] in multiset(b);
      var x :| 0 <= x < |b| && b[x] == a[i];
      assert kb[x] == k;
    }
    assert Elems(ka) == Elems(kb);
    assert |a| == |multiset(a)| == |multiset(b)| == |b|;
    DistinctIffFullCard(ka);
    DistinctIffFullCard(kb);
  }

  // ---------------------------------------------------------------------
  // The board

  const Width: nat := 10

  /** The layout's rows, one character per cell. */
  const Rows: seq<string> := [
    "#ASTRE$#OR",
    "$M$$$$#ECU",
    "#OCEANA#NU",
    "CU$$$$NN$$",
    "HR#PIANO$#",
    "A$$$$$E$#I",
    "T$#JARDINL",
    "$$L$$$$$EE",
    "#CIEL$$$R$",
    "$$T$$$$$D$"
  ]

  /** A grid of one-character cells from its rows. */
  function CharCells(rows: seq<string>): (g: Grid)
    ensures |g| == |rows| && forall r :: 0 <= r < |rows| ==> |g[r]| == |rows[r]|
    ensures forall r, c :: 0 <= r < |rows| && 0 <= c < |rows[r]| ==> g[r][c] == [rows[r][c]]
  {
    seq(|rows|, r requires 0 <= r < |rows| => seq(|rows[r]|, c requires 0 <= c < |rows[r]| => [rows[r][c]]))
  }

  /** `gridLayout`: ten rows of ten one-character cells. */
  const Layout: Grid := CharCells(Rows)

  function Clue(number: int, dirs: seq<(string, string)>): ClueEntry {
    ClueEntry(number, Some(seq(|dirs|, k requires 0 <= k < |dirs| => Direction(dirs[k].0, dirs[k].1))))
  }

  const Clues: ClueMap := map[
    0 := Clue(1, [("right", "Corps céleste"), ("down", "Sentiment passionné")]),
    7 := Clue(2, [("right", "Métal précieux"), ("down", "Point cardinal")]),
    16 := Clue(3, [("right", "Monnaie du Moyen Âge"), ("down", "Prénom féminin")]),
    20 := Clue(4, [("right", "Atlantique ou Pacifique"), ("down", "Félin domestique")]),
    27 := Clue(5, [("right", "En tenue d'Adam"), ("down", "Symbole du Nobélium")]),
    42 := Clue(6, [("right", "Instrument à cordes")]),
    58 := Clue(7, [("right", "Un chiffre romain"), ("down", "Passionné d'informatique")]),
    62 := Clue(8, [("right", "Espace vert aménagé"), ("down", "Meuble de repos")]),
    80 := Clue(9, [("right", "La voûte étoilée")]),
    49 := Clue(10, [("down", "Paradisiaque")])
  ]

  /** `flat()`: the rows one after the other. */
  function Flatten(g: Grid): (f: seq<string>)
  {
    if |g| == 0 then [] else g[0] + Flatten(g[1..])
  }

  /** In a grid of rows of width w, cell (r, c) sits at flat index
      r * w + c. */
  lemma {:induction false} FlatIndex(g: Grid, w: nat, r: nat, c: nat)
    requires forall k :: 0 <= k < |g| ==> |g[k]| == w
    requires r < |g| && c < w
    ensures |Flatten(g)| == |g| * w
    ensures r * w + c < |Flatten(g)| && Flatten(g)[r * w + c] == g[r][c]
  {
    FlatLength(g, w);
    if r > 0 {
      FlatIndex(g[1..], w, r - 1, c);
      assert (r - 1) * w == r * w - w;
      assert Flatten(g) == g[0] + Flatten(g[1..]);
    }
  }

  lemma {:induction false} FlatLength(g: Grid, w: nat)
    requires forall r :: 0 <= r < |g| ==> |g[r]| == w
    ensures |Flatten(g)| == |g| * w
  {
    if |g| > 0 {
      FlatLength(g[1..], w);
    }
  }

  /** The flat indices of the `#` cells. */
  const ClueCells: set<int> := {0, 7, 16, 20, 27, 42, 49, 58, 62, 80}

  lemma ClueMapKeys()
    ensures Clues.Keys == ClueCells
  {
  }

  lemma ClueCellsTop()
    ensures forall r, c :: 0 <= r < 5 && 0 <= c < 10 ==> (r * Width + c in ClueCells <==> Rows[r][c] == '#')
  {
    assert forall c :: 0 <= c < 10 ==> (0 + c in ClueCells <==> Rows[0][c] == '#');
    assert forall c :: 0 <= c < 10 ==> (10 + c in ClueCells <==> Rows[1][c] == '#');
    assert forall c :: 0 <= c < 10 ==> (20 + c in ClueCells <==> Rows[2][c] == '#');
    assert forall c :: 0 <= c < 10 ==> (30 + c in ClueCells <==> Rows[3][c] == '#');
    assert forall c :: 0 <= c < 10 ==> (40 + c in ClueCells <==> Rows[4][c] == '#');
  }

  lemma ClueCellsBottom()
    ensures forall r, c :: 5 <= r < 10 && 0 <= c < 10 ==> (r * Width + c in ClueCells <==> Rows[r][c] == '#')
  {
    assert forall c :: 0 <= c < 10 ==> (50 + c in ClueCells <==> Rows[5][c] == '#');
    assert forall c :: 0 <= c < 10 ==> (60 + c in ClueCells <==> Rows[6][c] == '#');
    assert forall c :: 0 <= c < 10 ==> (70 + c in ClueCells <==> Rows[7][c] == '#');
    assert forall c :: 0 <= c < 10 ==> (80 + c in ClueCells <==> Rows[8][c] == '#');
    assert forall c :: 0 <= c < 10 ==> (90 + c in ClueCells <==> Rows[9][c] == '#');
  }

  /** The clue map has an entry on exactly the `#` cells of the layout. */
  lemma ClueKeysAreClueCells()
    ensures forall r, c :: 0 <= r < 10 && 0 <= c < 10 ==> (r * Width + c in Clues <==> Layout[r][c] == "#")
  {
    ClueMapKeys();
    ClueCellsTop();
    ClueCellsBottom();
    forall r, c | 0 <= r < 10 && 0 <= c < 10 ensures r * Width + c in Clues <==> Layout[r][c] == "#" {
      assert Layout[r][c] == [Rows[r][c]];
    }
  }

  // ---------------------------------------------------------------------
  // Cells

  /** A rendered arrow, by direction. */
  datatype Arrows = Arrows(horizontal: seq<string>, vertical: seq<string>)

  datatype CellView =
    | Block
    | EmptyClue
    | ClueCell(number: int, arrows: Arrows)
    | Letter(letter: string)

  function Dir(d: Direction): string { d.dir }

  /** The arrows of one clue: directions de-duplicated, a missing list
      giving one "right" arrow, then split into right/left and down/up. */
  function ArrowsOf(c: ClueEntry): (a: Arrows)
    ensures forall x :: x in a.horizontal ==> x == "right" || x == "left"
    ensures forall x :: x in a.vertical ==> x == "down" || x == "up"
    ensures Distinct(a.horizontal) && Distinct(a.vertical)
    ensures c.directions.None? ==> a == Arrows(["right"], [])
    ensures c.directions.Some? ==>
              (forall x :: x in a.horizontal + a.vertical <==>
                 (x in KeysOf(c.directions.value, Dir) && x in {"right", "left", "down", "up"}))
  {
    var raw := UniqByKey(c.directions.OrElse([Direction("right", "")]), Dir);
    var dirs := KeysOf(raw, Dir);
    var h := Only(dirs, "right", "left");
    var v := Only(dirs, "down", "up");
    OnlyDistinct(dirs, "right", "left");
    OnlyDistinct(dirs, "down", "up");
    if c.directions.Some? then
      UniqSameKeys(c.directions.value, Dir);
      Arrows(h, v)
    else
      assert dirs == ["right"];
      Arrows(h, v)
  }

  /** De-duplicating keeps every key: the filtered list has exactly the
      keys of the original. */
  lemma {:induction false} UniqSameKeys<T, K>(s: seq<T>, key: T -> K)
    ensures forall x :: x in KeysOf(UniqByKey(s, key), key) <==> x in KeysOf(s, key)
  {
    var r := UniqByKey(s, key);
    forall x | x in KeysOf(s, key) ensures x in KeysOf(r, key) {
      var i :| 0 <= i < |s| && KeysOf(s, key)[i] == x;
    }
    forall x | x in KeysOf(r, key) ensures x in KeysOf(s, key) {
      var i :| 0 <= i < |r| && KeysOf(r, key)[i] == x;
      assert r[i] in s;
      var j :| 0 <= j < |s| && s[j] == r[i];
      assert KeysOf(s, key)[j] == x;
    }
  }

  /** The elements equal to `a` or `b`, in order. */
  function Only(s: seq<string>, a: string, b: string): (r: seq<string>)
    ensures forall x :: x in r <==> x in s && (x == a || x == b)
  {
    if |s| == 0 then []
    else (if s[0] == a || s[0] == b then [s[0]] else []) + Only(s[1..], a, b)
  }

  lemma {:induction false} OnlyDistinct(s: seq<string>, a: string, b: string)
    requires Distinct(s)
    ensures Distinct(Only(s, a, b))
  {
    if |s| > 0 {
      OnlyDistinct(s[1..], a, b);
      assert forall k :: 0 <= k < |s| - 1 ==> s[1..][k] == s[k + 1];
      var r := Only(s, a, b);
      var rest := Only(s[1..], a, b);
      if s[0] == a || s[0] == b {
        forall j | 0 < j < |r| ensures r[0] != r[j] {
          assert r[j] == rest[j - 1];
          assert rest[j - 1] in rest;
        }
      }
    }
  }

  /** How the page draws flat cell `i`: `$` is a block, `#` a clue cell
      (empty when the map has no entry), anything else a letter. */
  function Classify(i: int, cell: string, clues: ClueMap): (v: CellView)
    ensures v.Block? <==> cell == "$"
    ensures v.EmptyClue? <==> cell == "#" && i !in clues
    ensures v.ClueCell? <==> cell == "#" && i in clues
    ensures v.ClueCell? ==> v.number == clues[i].number && v.arrows == ArrowsOf(clues[i])
    ensures v.Letter? <==> !IsStructural(cell)
    ensures v.Letter? ==> v.letter == cell
  {
    if cell == "$" then Block
    else if cell == "#" then
      if i !in clues then EmptyClue else ClueCell(clues[i].number, ArrowsOf(clues[i]))
    else Letter(cell)
  }

  /** The board as drawn: one view per flat cell, in reading order; flat
      cell r * 10 + c shows layout cell (r, c). */
  function Board(): (b: seq<CellView>)
    ensures |b| == 100
    ensures forall r, c :: 0 <= r < 10 && 0 <= c < 10 ==> b[r * Width + c] == Classify(r * Width + c, Layout[r][c], Clues)
  {
    LayoutFlat();
    var flat := Flatten(Layout);
    seq(100, i requires 0 <= i < 100 => Classify(i, flat[i], Clues))
  }

  /** The flat layout has a hundred cells, cell (r, c) at r * 10 + c. */
  lemma LayoutFlat()
    ensures |Flatten(Layout)| == 100
    ensures forall r, c :: 0 <= r < 10 && 0 <= c < 10 ==> Flatten(Layout)[r * Width + c] == Layout[r][c]
  {
    assert |Layout| == 10 && forall r :: 0 <= r < 10 ==> |Layout[r]| == Width;
    FlatLength(Layout, Width);
    forall r, c | 0 <= r < 10 && 0 <= c < 10 ensures Flatten(Layout)[r * Width + c] == Layout[r][c] {
      FlatIndex(Layout, Width, r, c);
    }
  }

  /** Every `#` of the layout has a clue, so the page draws no empty clue
      cell. */
  lemma NoEmptyClue()
    ensures forall i :: 0 <= i < 100 ==> !Board()[i].EmptyClue?
  {
    var b := Board();
    ClueKeysAreClueCells();
    forall i | 0 <= i < 100 ensures !b[i].EmptyClue? {
      var r, c := i / 10, i % 10;
      assert i == r * Width + c;
      assert b[r * Width + c] == Classify(r * Width + c, Layout[r][c], Clues);
      assert r * Width + c in Clues <==> Layout[r][c] == "#";
    }
  }
}
