/**
 * The two finders side by side: both parsers read the same code point and the
 * same words from every line, so over lines with distinct code points the
 * scanning finder and the index finder return the same characters.
 */
module Agreement {
  import opened Text
  import opened Hex
  import opened Results
  import opened Ucd
  import CharFinder
  import CharFinder2

  /**
   * Both parsers accept the same lines and agree on the code point, the token
   * set and whether the entry is a placeholder; they differ only in how the
   * old name is written into the display text.
   */
  lemma ParseAgree(line: string)
    ensures CharFinder.Parse(line).Ok? <==> CharFinder2.Parse(line).Ok?
    ensures CharFinder.Parse(line).Ok? ==>
      var e1, e2 := CharFinder.Parse(line).value, CharFinder2.Parse(line).value;
      && e1.cp == e2.cp
      && e1.tokens == e2.tokens
      && (IsPlaceholder(e1.display) <==> IsPlaceholder(e2.display))
  {
    CharFinder.ParseSpec(line);
    CharFinder2.ParseSpec(line);
  }

  /** Parsed entries with pairwise-distinct code points. */
  predicate DistinctCodePoints(es: seq<Entry>) {
    forall i, j :: 0 <= i < j < |es| ==> es[i].cp != es[j].cp
  }

  lemma SameCodePoint(es: seq<Entry>, i: nat, j: nat)
    requires DistinctCodePoints(es) && i < |es| && j < |es| && es[i].cp == es[j].cp
    ensures i == j
  {
  }

  /** Every query word indexes `c`: with no code point shared, one line for `c` carries them all and is yielded. */
  lemma FoundImpliesYielded(lines: seq<string>, words: seq<string>, c: nat)
    requires CharFinder2.BuildIndex(lines).Ok? && |words| > 0
    requires DistinctCodePoints(CharFinder2.ParseAll(lines).value)
    requires forall k :: 0 <= k < |words| ==> CharFinder2.Contributes(CharFinder2.ParseAll(lines).value, Upper(words[k]), c)
    ensures exists i :: 0 <= i < |lines| && CharFinder.Yields(lines, i, CharFinder.QuerySet(words)) && CharFinder.Parse(lines[i]).value.cp == c
  {
    var es := CharFinder2.ParseAll(lines).value;
    var q := CharFinder.QuerySet(words);
    assert CharFinder2.Contributes(es, Upper(words[0]), c);
    var i :| 0 <= i < |es| && CharFinder2.Indexed(es[i]) && es[i].cp == c && Upper(words[0]) in es[i].tokens;
    ParseAgree(lines[i]);
    forall w | w in q ensures w in es[i].tokens {
      var k :| 0 <= k < |words| && w == Upper(words[k]);
      assert CharFinder2.Contributes(es, w, c);
      var j :| 0 <= j < |es| && CharFinder2.Indexed(es[j]) && es[j].cp == c && w in es[j].tokens;
      SameCodePoint(es, i, j);
    }
    assert CharFinder.Yields(lines, i, q);
  }

  /** A yielded line for `c` makes every query word index `c`. */
  lemma YieldedImpliesFound(lines: seq<string>, words: seq<string>, c: nat, i: nat)
    requires CharFinder2.BuildIndex(lines).Ok?
    requires i < |lines| && CharFinder.Yields(lines, i, CharFinder.QuerySet(words)) && CharFinder.Parse(lines[i]).value.cp == c
    ensures forall k :: 0 <= k < |words| ==> CharFinder2.Contributes(CharFinder2.ParseAll(lines).value, Upper(words[k]), c)
  {
    var es := CharFinder2.ParseAll(lines).value;
    ParseAgree(lines[i]);
    assert CharFinder2.Parse(lines[i]) == Ok(es[i]);
    forall k | 0 <= k < |words| ensures CharFinder2.Contributes(es, Upper(words[k]), c) {
      assert Upper(words[k]) in CharFinder.QuerySet(words);
    }
  }

  /** One code point at a time: `scan` yields `c` exactly when `search` does. */
  lemma CodeAgrees(lines: seq<string>, words: seq<string>, c: nat)
    requires CharFinder2.BuildIndex(lines).Ok? && |words| > 0
    requires DistinctCodePoints(CharFinder2.ParseAll(lines).value)
    requires forall i :: 0 <= i < |lines| ==> CharFinder.Parse(lines[i]).Ok?
    ensures c in HitCodes(CharFinder.Scan(lines, words).hits)
      <==> c in HitCodes(CharFinder2.Search(CharFinder2.BuildIndex(lines).value, words))
  {
    CharFinder.ScanCodes(lines, words, c);
    CharFinder2.SearchBuiltIndex(lines, words, c);
    var es := CharFinder2.ParseAll(lines).value;
    var q := CharFinder.QuerySet(words);
    if forall k :: 0 <= k < |words| ==> CharFinder2.Contributes(es, Upper(words[k]), c) {
      FoundImpliesYielded(lines, words, c);
    }
    if exists i :: 0 <= i < |lines| && CharFinder.Yields(lines, i, q) && CharFinder.Parse(lines[i]).value.cp == c {
      var i :| 0 <= i < |lines| && CharFinder.Yields(lines, i, q) && CharFinder.Parse(lines[i]).value.cp == c;
      YieldedImpliesFound(lines, words, c, i);
    }
  }

  /**
   * The headline: when every line parses and no two lines share a code point,
   * `scan` completes and yields exactly the code points `search` yields over
   * `build_index` of the same lines (in a different order, with different
   * display texts).
   */
  lemma ScanMatchesSearch(lines: seq<string>, words: seq<string>)
    requires CharFinder2.BuildIndex(lines).Ok?
    requires DistinctCodePoints(CharFinder2.ParseAll(lines).value)
    ensures CharFinder.Scan(lines, words).failure.None?
    ensures HitCodes(CharFinder.Scan(lines, words).hits) == HitCodes(CharFinder2.Search(CharFinder2.BuildIndex(lines).value, words))
  {
    if |words| > 0 {
      forall i | 0 <= i < |lines| ensures CharFinder.Parse(lines[i]).Ok? {
        ParseAgree(lines[i]);
      }
      CharFinder.ScanCodes(lines, words, 0);
      forall c: nat ensures c in HitCodes(CharFinder.Scan(lines, words).hits)
        <==> c in HitCodes(CharFinder2.Search(CharFinder2.BuildIndex(lines).value, words))
      {
        CodeAgrees(lines, words, c);
      }
    }
  }
}
