/**
 * charstats.py: how often each character occurs in the names of
 * UnicodeData.txt. A `Counter` is folded over the lines (placeholder names are
 * skipped, spaces are not counted) and reported with `most_common()`.
 */
module CharStats {
  import opened Text
  import opened Results
  import opened Ucd

  // ---------------------------------------------------------------------------
  // the Counter

  /** A `Counter` of characters: its keys in insertion order, and the count of each. */
  datatype Tally = Tally(order: seq<char>, counts: map<char, nat>)

  const EmptyTally := Tally([], map[])

  /** The count of `c`, zero when absent (as `Counter` answers). */
  function Count(counts: map<char, nat>, c: char): nat {
    if c in counts then counts[c] else 0
  }

  /** The keys are listed once each, in `order`, and every stored count is positive. */
  predicate WellFormed(t: Tally) {
    && (forall i, j :: 0 <= i < j < |t.order| ==> t.order[i] != t.order[j])
    && (forall c :: c in t.counts <==> c in t.order)
    && (forall c :: c in t.counts ==> t.counts[c] > 0)
  }

  /** `char_count[c] += 1`: a new key goes to the end of the insertion order. */
  function Bump(t: Tally, c: char): (r: Tally)
    ensures Count(r.counts, c) == Count(t.counts, c) + 1
    ensures forall d :: d != c ==> Count(r.counts, d) == Count(t.counts, d)
    ensures r.order == if c in t.counts then t.order else t.order + [c]
  {
    if c in t.counts then Tally(t.order, t.counts[c := t.counts[c] + 1])
    else Tally(t.order + [c], t.counts[c := 1])
  }

  /** The sum of the counts, taken over the keys in `order`. */
  function SumCounts(order: seq<char>, counts: map<char, nat>): nat {
    if |order| == 0 then 0 else SumCounts(order[..|order| - 1], counts) + Count(counts, order[|order| - 1])
  }

  function Total(t: Tally): nat {
    SumCounts(t.order, t.counts)
  }

  /** Changing the count of a key not listed in `order` leaves the sum alone. */
  lemma {:induction false} SumCountsOther(order: seq<char>, counts: map<char, nat>, c: char, v: nat)
    requires c !in order
    ensures SumCounts(order, counts[c := v]) == SumCounts(order, counts)
  {
    if |order| > 0 {
      SumCountsOther(order[..|order| - 1], counts, c, v);
    }
  }

  /** Adding one to the count of a key listed exactly once adds one to the sum. */
  lemma {:induction false} SumCountsBump(order: seq<char>, counts: map<char, nat>, c: char)
    requires forall i, j :: 0 <= i < j < |order| ==> order[i] != order[j]
    requires c in order
    ensures SumCounts(order, counts[c := Count(counts, c) + 1]) == SumCounts(order, counts) + 1
  {
    var pre := order[..|order| - 1];
    var last := order[|order| - 1];
    if last == c {
      assert c !in pre;
      SumCountsOther(pre, counts, c, Count(counts, c) + 1);
    } else {
      assert c in pre by {
        var i :| 0 <= i < |order| && order[i] == c;
        assert pre[i] == c;
      }
      SumCountsBump(pre, counts, c);
    }
  }

  lemma BumpNewTotal(t: Tally, c: char)
    requires WellFormed(t) && c !in t.counts
    ensures Total(Bump(t, c)) == Total(t) + 1
  {
    var r := Bump(t, c);
    assert r.order[..|r.order| - 1] == t.order;
    SumCountsOther(t.order, t.counts, c, 1);
  }

  lemma BumpWellFormed(t: Tally, c: char)
    requires WellFormed(t)
    ensures WellFormed(Bump(t, c))
  {
    var r := Bump(t, c);
    if c !in t.counts {
      forall i, j | 0 <= i < j < |r.order| ensures r.order[i] != r.order[j] {
        if j == |t.order| {
          assert r.order[i] == t.order[i];
        }
      }
      forall d ensures d in r.counts <==> d in r.order {
        assert d in r.order <==> d in t.order || d == c;
      }
    }
  }

  /** A bump keeps the counter well formed and adds exactly one to the total. */
  lemma BumpTotal(t: Tally, c: char)
    requires WellFormed(t)
    ensures WellFormed(Bump(t, c))
    ensures Total(Bump(t, c)) == Total(t) + 1
  {
    BumpWellFormed(t, c);
    if c in t.counts {
      SumCountsBump(t.order, t.counts, c);
    } else {
      BumpNewTotal(t, c);
    }
  }

  // ---------------------------------------------------------------------------
  // the fold over the lines

  /** The inner loop: every character of the name except the space is counted. */
  function CountName(t: Tally, name: string): Tally
  {
    if |name| == 0 then t
    else
      var prev := CountName(t, name[..|name| - 1]);
      var c := name[|name| - 1];
      if c == ' ' then prev else Bump(prev, c)
  }

  /** The last character of a non-empty name is counted on top of the rest. */
  lemma CountNameLast(t: Tally, name: string)
    requires |name| > 0
    ensures var prev, c := CountName(t, name[..|name| - 1]), name[|name| - 1];
      CountName(t, name) == if c == ' ' then prev else Bump(prev, c)
    ensures multiset(name) == multiset(name[..|name| - 1]) + multiset{name[|name| - 1]}
  {
    assert name == name[..|name| - 1] + [name[|name| - 1]];
  }

  lemma {:induction false} CountNameCounts(t: Tally, name: string)
    ensures forall c :: Count(CountName(t, name).counts, c) == Count(t.counts, c) + (if c == ' ' then 0 else multiset(name)[c])
  {
    if |name| > 0 {
      CountNameLast(t, name);
      CountNameCounts(t, name[..|name| - 1]);
    }
  }

  lemma {:induction false} CountNameShape(t: Tally, name: string)
    requires WellFormed(t)
    ensures WellFormed(CountName(t, name))
    ensures Total(CountName(t, name)) == Total(t) + |name| - multiset(name)[' ']
    ensures t.order <= CountName(t, name).order
  {
    if |name| > 0 {
      var pre, c := name[..|name| - 1], name[|name| - 1];
      CountNameLast(t, name);
      CountNameShape(t, pre);
      if c != ' ' {
        BumpTotal(CountName(t, pre), c);
      }
    }
  }

  /**
   * Counting a name adds its number of occurrences to every character's count
   * except the space's, adds its number of non-space characters to the total,
   * and only appends to the insertion order.
   */
  lemma CountNameSpec(t: Tally, name: string)
    requires WellFormed(t)
    ensures WellFormed(CountName(t, name))
    ensures forall c :: Count(CountName(t, name).counts, c) == Count(t.counts, c) + (if c == ' ' then 0 else multiset(name)[c])
    ensures Total(CountName(t, name)) == Total(t) + |name| - multiset(name)[' ']
    ensures t.order <= CountName(t, name).order
  {
    CountNameCounts(t, name);
    CountNameShape(t, name);
  }

  /** The name field of a record, when it has one. */
  predicate HasName(line: string) {
    |Fields(line)| >= 2
  }

  /** One line: `parts[1]` fails on a record without a second field; placeholders are skipped. */
  function CountLine(t: Tally, line: string): (r: Result<Tally, ParseError>)
    ensures r.Err? <==> !HasName(line)
    ensures !HasName(line) ==> r == Err(MissingField(1))
    ensures HasName(line) && IsPlaceholder(Fields(line)[1]) ==> r == Ok(t)
  {
    var parts := Fields(line);
    if |parts| < 2 then Err(MissingField(1))
    else if IsPlaceholder(parts[1]) then Ok(t)
    else Ok(CountName(t, parts[1]))
  }

  /** The counter after the loop over all lines. */
  function CharCounts(lines: seq<string>): Result<Tally, ParseError>
  {
    if |lines| == 0 then Ok(EmptyTally)
    else
      var prev :- CharCounts(lines[..|lines| - 1]);
      CountLine(prev, lines[|lines| - 1])
  }

  /** The names that are counted, run together: the name field of every line that is not a placeholder. */
  function CountedText(lines: seq<string>): string
  {
    if |lines| == 0 then ""
    else
      var line := lines[|lines| - 1];
      CountedText(lines[..|lines| - 1]) + (if HasName(line) && !IsPlaceholder(Fields(line)[1]) then Fields(line)[1] else "")
  }

  /** The counts of one more counted name, in terms of the text counted so far. */
  lemma CountedStep(t: Tally, text: string, name: string)
    requires WellFormed(t)
    requires forall c :: Count(t.counts, c) == if c == ' ' then 0 else multiset(text)[c]
    requires Total(t) == |text| - multiset(text)[' ']
    ensures WellFormed(CountName(t, name))
    ensures forall c :: Count(CountName(t, name).counts, c) == if c == ' ' then 0 else multiset(text + name)[c]
    ensures Total(CountName(t, name)) == |text + name| - multiset(text + name)[' ']
  {
    CountNameSpec(t, name);
    assert multiset(text + name) == multiset(text) + multiset(name);
  }

  /** The loop fails exactly when some line has no name field. */
  lemma {:induction false} CharCountsFails(lines: seq<string>)
    ensures CharCounts(lines).Ok? <==> forall i :: 0 <= i < |lines| ==> HasName(lines[i])
  {
    if |lines| > 0 {
      var pre := lines[..|lines| - 1];
      CharCountsFails(pre);
      if CharCounts(pre).Ok? {
        assert forall i :: 0 <= i < |pre| ==> pre[i] == lines[i];
      } else {
        var i :| 0 <= i < |pre| && !HasName(pre[i]);
        assert lines[i] == pre[i];
      }
    }
  }

  /**
   * Each character other than the space is counted exactly as often as it
   * occurs in the counted names, the space is never counted, and the counts
   * total the number of non-space characters of those names.
   */
  lemma {:induction false} CharCountsSpec(lines: seq<string>)
    requires CharCounts(lines).Ok?
    ensures var t := CharCounts(lines).value;
      && WellFormed(t)
      && (forall c :: Count(t.counts, c) == if c == ' ' then 0 else multiset(CountedText(lines))[c])
      && Total(t) == |CountedText(lines)| - multiset(CountedText(lines))[' ']
  {
    if |lines| > 0 {
      var pre := lines[..|lines| - 1];
      var line := lines[|lines| - 1];
      CharCountsSpec(pre);
      var prev := CharCounts(pre).value;
      if !IsPlaceholder(Fields(line)[1]) {
        var name := Fields(line)[1];
        assert CountedText(lines) == CountedText(pre) + name;
        CountedStep(prev, CountedText(pre), name);
      } else {
        assert CountedText(lines) == CountedText(pre) + "";
      }
    }
  }

  // ---------------------------------------------------------------------------
  // most_common()

  type Item = (char, nat)

  /** `counter.items()`: each key with its count, in insertion order. */
  function Items(t: Tally): (r: seq<Item>)
    ensures |r| == |t.order|
    ensures forall i :: 0 <= i < |r| ==> r[i] == (t.order[i], Count(t.counts, t.order[i]))
  {
    seq(|t.order|, i requires 0 <= i < |t.order| => (t.order[i], Count(t.counts, t.order[i])))
  }

  predicate NonIncreasing(r: seq<Item>) {
    forall i, j :: 0 <= i < j < |r| ==> r[i].1 >= r[j].1
  }

  /** The items with count `k`, in their order in `r`. */
  function WithCount(r: seq<Item>, k: nat): seq<Item>
  {
    if |r| == 0 then []
    else WithCount(r[..|r| - 1], k) + (if r[|r| - 1].1 == k then [r[|r| - 1]] else [])
  }

  lemma {:induction false} WithCountAppend(a: seq<Item>, b: seq<Item>, k: nat)
    ensures WithCount(a + b, k) == WithCount(a, k) + WithCount(b, k)
  {
    if |b| == 0 {
      assert a + b == a;
    } else {
      var pre := b[..|b| - 1];
      WithCountAppend(a, pre, k);
      assert (a + b)[..|a + b| - 1] == a + pre;
    }
  }

  /** Stable insertion: `x` goes after every item whose count is at least its own. */
  function InsertByCount(r: seq<Item>, x: Item): (s: seq<Item>)
    ensures multiset(s) == multiset(r) + multiset{x}
  {
    if |r| == 0 then [x]
    else if r[0].1 < x.1 then [x] + r
    else
      var rest := InsertByCount(r[1..], x);
      assert r == [r[0]] + r[1..];
      [r[0]] + rest
  }

  lemma {:induction false} InsertByCountNonIncreasing(r: seq<Item>, x: Item)
    requires NonIncreasing(r)
    ensures NonIncreasing(InsertByCount(r, x))
  {
    var s := InsertByCount(r, x);
    if |r| > 0 && r[0].1 >= x.1 {
      InsertByCountNonIncreasing(r[1..], x);
      var rest := InsertByCount(r[1..], x);
      assert s == [r[0]] + rest;
      forall j | 0 < j < |s| ensures s[0].1 >= s[j].1 {
        assert s[j] in multiset(rest);
        if s[j] != x {
          assert s[j] in multiset(r[1..]);
          var m :| 0 <= m < |r[1..]| && r[1..][m] == s[j];
          assert r[0].1 >= r[m + 1].1;
        }
      }
    }
  }

  /** No item has count `k`: nothing is selected. */
  lemma {:induction false} WithCountNone(r: seq<Item>, k: nat)
    requires forall i :: 0 <= i < |r| ==> r[i].1 != k
    ensures WithCount(r, k) == []
  {
    if |r| > 0 {
      WithCountNone(r[..|r| - 1], k);
    }
  }

  lemma WithCountSingle(x: Item, k: nat)
    ensures WithCount([x], k) == if x.1 == k then [x] else []
  {
    assert [x][..0] == [];
  }

  /** The front case of insertion: `x` outranks the head, so it outranks every item. */
  lemma InsertByCountStableFront(r: seq<Item>, x: Item, k: nat)
    requires NonIncreasing(r) && |r| > 0 && r[0].1 < x.1
    ensures WithCount([x] + r, k) == WithCount(r, k) + WithCount([x], k)
  {
    WithCountAppend([x], r, k);
    WithCountSingle(x, k);
    if x.1 == k {
      WithCountNone(r, k);
    }
  }

  /** The step case: the head stays in front, `x` goes into the tail. */
  lemma InsertByCountStableStep(r: seq<Item>, x: Item, k: nat, rest: seq<Item>)
    requires |r| > 0
    requires WithCount(rest, k) == WithCount(r[1..], k) + WithCount([x], k)
    ensures WithCount([r[0]] + rest, k) == WithCount(r, k) + WithCount([x], k)
  {
    WithCountAppend([r[0]], rest, k);
    WithCountAppend([r[0]], r[1..], k);
    assert r == [r[0]] + r[1..];
    SeqAppendAssoc(WithCount([r[0]], k), WithCount(r[1..], k), WithCount([x], k));
  }

  /** Insertion keeps the items of every count in order, with `x` last among those of its count. */
  lemma {:induction false} InsertByCountStable(r: seq<Item>, x: Item, k: nat)
    requires NonIncreasing(r)
    ensures WithCount(InsertByCount(r, x), k) == WithCount(r, k) + WithCount([x], k)
  {
    if |r| == 0 {
      assert r + [x] == [x];
    } else if r[0].1 < x.1 {
      InsertByCountStableFront(r, x, k);
    } else {
      InsertByCountStable(r[1..], x, k);
      InsertByCountStableStep(r, x, k, InsertByCount(r[1..], x));
    }
  }

  /** `sorted(items, key=count, reverse=True)`, as a fold of stable insertions. */
  function SortByCount(items: seq<Item>): seq<Item>
  {
    if |items| == 0 then [] else InsertByCount(SortByCount(items[..|items| - 1]), items[|items| - 1])
  }

  lemma {:induction false} SortByCountNonIncreasing(items: seq<Item>)
    ensures NonIncreasing(SortByCount(items))
  {
    if |items| > 0 {
      SortByCountNonIncreasing(items[..|items| - 1]);
      InsertByCountNonIncreasing(SortByCount(items[..|items| - 1]), items[|items| - 1]);
    }
  }

  lemma {:induction false} SortByCountPermutes(items: seq<Item>)
    ensures multiset(SortByCount(items)) == multiset(items)
  {
    if |items| > 0 {
      var pre := items[..|items| - 1];
      SortByCountPermutes(pre);
      assert items == pre + [items[|items| - 1]];
    }
  }

  /** The items of count `k` come out of the sort in their input order. */
  lemma {:induction false} SortByCountStable(items: seq<Item>, k: nat)
    ensures WithCount(SortByCount(items), k) == WithCount(items, k)
  {
    if |items| > 0 {
      var pre := items[..|items| - 1];
      var x := items[|items| - 1];
      SortByCountStable(pre, k);
      SortByCountNonIncreasing(pre);
      InsertByCountStable(SortByCount(pre), x, k);
      WithCountAppend(pre, [x], k);
      assert items == pre + [x];
    }
  }

  /**
   * The sort is a stable descending sort: counts never increase along the
   * result, the items of each count keep their input order, and the result
   * is a permutation of the input.
   */
  lemma SortByCountSpec(items: seq<Item>)
    ensures NonIncreasing(SortByCount(items))
    ensures forall k :: WithCount(SortByCount(items), k) == WithCount(items, k)
    ensures multiset(SortByCount(items)) == multiset(items)
  {
    SortByCountNonIncreasing(items);
    SortByCountPermutes(items);
    forall k ensures WithCount(SortByCount(items), k) == WithCount(items, k) {
      SortByCountStable(items, k);
    }
  }

  /** `most_common()`. */
  function MostCommon(t: Tally): seq<Item>
  {
    SortByCount(Items(t))
  }

  /**
   * Every key is reported once with its count, in non-increasing count order,
   * and characters with equal counts appear in the order they were first
   * counted.
   */
  lemma MostCommonSpec(t: Tally)
    requires WellFormed(t)
    ensures NonIncreasing(MostCommon(t))
    ensures forall x :: x in MostCommon(t) <==> x.0 in t.counts && x.1 == t.counts[x.0]
    ensures |MostCommon(t)| == |t.order|
    ensures forall k :: WithCount(MostCommon(t), k) == WithCount(Items(t), k)
  {
    var items := Items(t);
    SortByCountSpec(items);
    var r := MostCommon(t);
    assert |r| == |multiset(r)| == |multiset(items)| == |items|;
    forall x ensures x in r <==> x.0 in t.counts && x.1 == t.counts[x.0] {
      assert x in r <==> x in multiset(items);
      if x.0 in t.counts && x.1 == t.counts[x.0] {
        var i :| 0 <= i < |t.order| && t.order[i] == x.0;
        assert items[i] == x;
      }
    }
  }
}
