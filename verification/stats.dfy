/**
 * stats.py: which dictionary words name the most characters. The vocabulary
 * is the set of stripped, upper-cased dictionary lines; the report lists
 * every index word in the vocabulary with the size of its code-point set,
 * sorted on (count, word) in descending order.
 */
module Stats {
  import opened Text

  // ---------------------------------------------------------------------------
  // load_vocabulary

  /** `word.strip().upper()` */
  function Normalise(word: string): (r: string)
    ensures |r| > 0 ==> !IsSpace(r[0]) && !IsSpace(r[|r| - 1])
    ensures forall i :: 0 <= i < |r| ==> !('a' <= r[i] <= 'z')
    ensures |r| == 0 <==> AllSpace(word)
  {
    var s := Strip(word);
    var r := Upper(s);
    assert |r| > 0 ==> IsSpace(r[0]) == IsSpace(s[0]) && IsSpace(r[|r| - 1]) == IsSpace(s[|s| - 1]);
    r
  }

  /** A string with no whitespace at either end is its own `strip()`. */
  lemma StripOfStripped(s: string)
    requires |s| > 0 ==> !IsSpace(s[0]) && !IsSpace(s[|s| - 1])
    ensures Strip(s) == s
  {
    assert DropSpaces(s) == s;
    assert TrimEnd(s) == s;
  }

  /** Normalising a vocabulary entry again leaves it unchanged. */
  lemma NormaliseIdempotent(word: string)
    ensures Normalise(Normalise(word)) == Normalise(word)
  {
    var r := Normalise(word);
    StripOfStripped(r);
    UpperOfUpper(r);
  }

  lemma UpperOfUpper(r: string)
    requires forall i :: 0 <= i < |r| ==> !('a' <= r[i] <= 'z')
    ensures Upper(r) == r
  {
  }

  /** The vocabulary built from the lines of the dictionary file. */
  function Vocabulary(lines: seq<string>): (v: set<string>)
    ensures forall k :: 0 <= k < |lines| ==> Normalise(lines[k]) in v
    ensures forall w :: w in v ==> exists k :: 0 <= k < |lines| && w == Normalise(lines[k])
  {
    set l | l in lines :: Normalise(l)
  }

  /** Every vocabulary entry is already normalised, so loading the vocabulary as a dictionary again reproduces it. */
  lemma VocabularyIsNormal(lines: seq<string>, w: string)
    requires w in Vocabulary(lines)
    ensures Normalise(w) == w
  {
    var k :| 0 <= k < |lines| && w == Normalise(lines[k]);
    NormaliseIdempotent(lines[k]);
  }

  // ---------------------------------------------------------------------------
  // the (count, word) order

  type Row = (nat, string)

  /** `a > b` on Python tuples `(count, word)`. */
  predicate Above(a: Row, b: Row) {
    a.0 > b.0 || (a.0 == b.0 && StrLess(b.1, a.1))
  }

  lemma AboveIrreflexive(a: Row)
    ensures !Above(a, a)
  {
    StrLessIrreflexive(a.1);
  }

  lemma AboveTransitive(a: Row, b: Row, c: Row)
    requires Above(a, b) && Above(b, c)
    ensures Above(a, c)
  {
    if a.0 == b.0 == c.0 {
      StrLessTransitive(c.1, b.1, a.1);
    }
  }

  lemma AboveTotal(a: Row, b: Row)
    requires a != b
    ensures Above(a, b) || Above(b, a)
  {
    if a.0 == b.0 {
      StrLessTotal(a.1, b.1);
    }
  }

  lemma AboveAsymmetric(a: Row, b: Row)
    requires Above(a, b)
    ensures !Above(b, a)
  {
    if a.0 == b.0 {
      StrLessAsymmetric(b.1, a.1);
    }
  }

  /** Strictly descending: what `sorted(rows, reverse=True)` produces from distinct rows. */
  predicate Descending(rows: seq<Row>) {
    forall i, j :: 0 <= i < j < |rows| ==> Above(rows[i], rows[j])
  }

  /** Two strictly descending sequences with the same elements are equal: the ranking is determined by its rows. */
  lemma {:induction false} DescendingUnique(a: seq<Row>, b: seq<Row>)
    requires Descending(a) && Descending(b)
    requires forall x :: x in a <==> x in b
    ensures a == b
  {
    assert |a| == 0 <==> |b| == 0 by {
      if |a| > 0 { assert a[0] in a; }
      if |b| > 0 { assert b[0] in b; }
    }
    if |a| > 0 {
      assert a[0] in b && b[0] in a;
      var k :| 0 <= k < |b| && b[k] == a[0];
      var m :| 0 <= m < |a| && a[m] == b[0];
      if k > 0 {
        assert Above(b[0], a[0]);
        if m == 0 {
          AboveIrreflexive(a[0]);
        } else {
          AboveAsymmetric(a[0], b[0]);
        }
        assert false;
      }
      forall x ensures x in a[1..] <==> x in b[1..] {
        if x in a[1..] {
          var i :| 1 <= i < |a| && a[i] == x;
          assert Above(a[0], a[i]);
          AboveIrreflexive(x);
          assert x in b && x != b[0];
          var j :| 0 <= j < |b| && b[j] == x;
          assert b[1..][j - 1] == x;
        }
        if x in b[1..] {
          var i :| 1 <= i < |b| && b[i] == x;
          assert Above(b[0], b[i]);
          AboveIrreflexive(x);
          assert x in a && x != a[0];
          var j :| 0 <= j < |a| && a[j] == x;
          assert a[1..][j - 1] == x;
        }
      }
      DescendingUnique(a[1..], b[1..]);
      assert a == [a[0]] + a[1..];
      assert b == [b[0]] + b[1..];
    }
  }

  /** Inserts a new row at its place in a descending ranking. */
  function InsertRanked(rows: seq<Row>, x: Row): (r: seq<Row>)
    ensures |r| == |rows| + 1
    ensures forall y :: y in r <==> y in rows || y == x
  {
    if |rows| == 0 then [x]
    else if Above(x, rows[0]) then [x] + rows
    else [rows[0]] + InsertRanked(rows[1..], x)
  }

  lemma {:induction false} InsertRankedDescending(rows: seq<Row>, x: Row)
    requires Descending(rows) && x !in rows
    ensures Descending(InsertRanked(rows, x))
  {
    var r := InsertRanked(rows, x);
    if |rows| > 0 {
      if Above(x, rows[0]) {
        forall i, j | 0 <= i < j < |r| ensures Above(r[i], r[j]) {
          if i == 0 && j > 1 {
            AboveTransitive(x, rows[0], rows[j - 1]);
          }
        }
      } else {
        AboveTotal(x, rows[0]);
        InsertRankedDescending(rows[1..], x);
        forall i, j | 0 <= i < j < |r| ensures Above(r[i], r[j]) {
          if i == 0 {
            assert r[j] in InsertRanked(rows[1..], x);
            if r[j] != x {
              var k :| 1 <= k < |rows| && rows[k] == r[j];
            }
          }
        }
      }
    }
  }

  // ---------------------------------------------------------------------------
  // word_count

  /** The rows `word_count` reports: each vocabulary word of the index with its code-point count. */
  predicate Reported(words: map<string, set<nat>>, vocabulary: set<string>, row: Row) {
    row.1 in words && row.1 in vocabulary && row.0 == |words[row.1]|
  }

  /**
   * `word_count` without the printing: the rows for the index words in the
   * vocabulary, largest count first and, within a count, words in reverse
   * order.
   */
  method WordCount(words: map<string, set<nat>>, vocabulary: set<string>) returns (ranked: seq<Row>)
    ensures Descending(ranked)
    ensures forall row :: row in ranked <==> Reported(words, vocabulary, row)
  {
    var pending := words.Keys;
    ranked := [];
    while pending != {}
      invariant pending <= words.Keys
      invariant Descending(ranked)
      invariant forall row :: row in ranked <==> Reported(words, vocabulary, row) && row.1 !in pending
      decreases |pending|
    {
      var w :| w in pending;
      if w in vocabulary {
        InsertRankedDescending(ranked, (|words[w]|, w));
        ranked := InsertRanked(ranked, (|words[w]|, w));
      }
      pending := pending - {w};
    }
  }

  /** Each reported word appears once, and the report is the one descending order of its rows. */
  lemma WordCountDetermined(words: map<string, set<nat>>, vocabulary: set<string>, a: seq<Row>, b: seq<Row>)
    requires Descending(a) && forall row :: row in a <==> Reported(words, vocabulary, row)
    requires Descending(b) && forall row :: row in b <==> Reported(words, vocabulary, row)
    ensures a == b
    ensures forall i, j :: 0 <= i < j < |a| ==> a[i].1 != a[j].1
  {
    DescendingUnique(a, b);
    forall i, j | 0 <= i < j < |a| ensures a[i].1 != a[j].1 {
      assert a[i] in a && a[j] in a;
      assert Above(a[i], a[j]);
      AboveIrreflexive(a[i]);
    }
  }
}
