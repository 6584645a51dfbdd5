/**
 * charfinder.py: the scanning character finder. Every line is parsed (the old
 * name is always folded in) and yielded, in input order, when its token set
 * covers the upper-cased query words.
 */
module CharFinder {
  import opened Text
  import opened Hex
  import opened Results
  import opened Ucd

  /** `read_ucd`: the stripped text split at newlines; blank and comment lines are kept. */
  function ReadUcd(text: string): (lines: seq<string>)
    ensures |lines| >= 1
    ensures forall i :: 0 <= i < |lines| ==> '\n' !in lines[i]
  {
    SplitOn(Strip(text), '\n')
  }

  /** Joining the lines back with newlines gives the stripped text: no character is lost or moved. */
  lemma ReadUcdRejoins(text: string)
    ensures Join(ReadUcd(text), '\n') == Strip(text)
  {
    JoinSplitOn(Strip(text), '\n');
  }

  /** The display text: the name, with ` (old: ...)` appended when field 10 is not empty. */
  function Display(name: string, oldName: string): string {
    if oldName == "" then name else name + " (old: " + oldName + ")"
  }

  /** `parse`: unpack and read `rest[8]` first, decode field 0 last. */
  function Parse(line: string): Result<Entry, ParseError>
  {
    ParseFields(Fields(line))
  }

  function ParseFields(parts: seq<string>): Result<Entry, ParseError>
  {
    if |parts| < 2 then Err(TooFewToUnpack(|parts|))
    else
      var name := parts[1];
      var nameSet := Tokens(name);
      if |parts| <= OldNameField then Err(MissingField(OldNameField))
      else
        var oldName := parts[OldNameField];
        var tokens := if oldName != "" then nameSet + Tokens(oldName) else nameSet;
        var cp :- DecodeCodePoint(parts[0]);
        Ok(Entry(cp, Display(name, oldName), tokens))
  }

  /** The display text starts with a `<` exactly when the name does. */
  lemma DisplayPlaceholder(name: string, oldName: string)
    ensures IsPlaceholder(Display(name, oldName)) <==> IsPlaceholder(name)
  {
    if oldName != "" {
      var d := Display(name, oldName);
      assert d == name + (" (old: " + oldName + ")");
      if |name| > 0 {
        assert d[0] == name[0];
      } else {
        assert d[0] == ' ';
      }
    }
  }

  /** The three ways `parse` fails, in the order it meets them. */
  lemma ParseFieldsErrors(parts: seq<string>)
    requires |parts| >= 1
    ensures |parts| < 2 ==> ParseFields(parts) == Err(TooFewToUnpack(|parts|))
    ensures 2 <= |parts| <= OldNameField ==> ParseFields(parts) == Err(MissingField(OldNameField))
    ensures |parts| > OldNameField && DecodeCodePoint(parts[0]).Err? ==>
      ParseFields(parts) == Err(DecodeCodePoint(parts[0]).error)
    ensures ParseFields(parts).Ok? <==> |parts| > OldNameField && DecodeCodePoint(parts[0]).Ok?
  {
  }

  lemma ParseFieldsOk(parts: seq<string>)
    requires ParseFields(parts).Ok?
    ensures |parts| > OldNameField
    ensures var e, name, oldName := ParseFields(parts).value, parts[1], parts[OldNameField];
      && IsHexText(parts[0]) && e.cp == HexValue(parts[0])
      && e.tokens == Tokens(name) + Tokens(oldName)
      && e.display == Display(name, oldName)
  {
    if parts[OldNameField] == "" {
      TokensOfEmpty();
    }
  }

  /**
   * `parse` fails on fewer than 2 fields (unpacking), then on fewer than 11
   * (`rest[8]`), then on a bad field 0; the tokens are always the union of
   * both names' tokens.
   */
  lemma ParseSpec(line: string)
    ensures |Fields(line)| < 2 ==> Parse(line) == Err(TooFewToUnpack(|Fields(line)|))
    ensures 2 <= |Fields(line)| <= OldNameField ==> Parse(line) == Err(MissingField(OldNameField))
    ensures |Fields(line)| > OldNameField && DecodeCodePoint(Fields(line)[0]).Err? ==>
      Parse(line) == Err(DecodeCodePoint(Fields(line)[0]).error)
    ensures Parse(line).Ok? <==> |Fields(line)| > OldNameField && DecodeCodePoint(Fields(line)[0]).Ok?
    ensures Parse(line).Ok? ==> var f := Fields(line);
      && IsHexText(f[0]) && Parse(line).value.cp == HexValue(f[0])
      && Parse(line).value.tokens == Tokens(f[1]) + Tokens(f[OldNameField])
      && (IsPlaceholder(Parse(line).value.display) <==> IsPlaceholder(f[1]))
      && (f[OldNameField] == "" ==> Parse(line).value.display == f[1])
      && (f[OldNameField] != "" ==> Parse(line).value.display == f[1] + " (old: " + f[OldNameField] + ")")
  {
    var parts := Fields(line);
    ParseFieldsErrors(parts);
    if ParseFields(parts).Ok? {
      ParseFieldsOk(parts);
      DisplayPlaceholder(parts[1], parts[OldNameField]);
    }
  }

  // ---------------------------------------------------------------------------
  // scan

  /** What the `scan` generator produces: the pairs it yielded, and the error it stopped with, if any. */
  datatype ScanOut = ScanOut(hits: seq<Hit>, failure: Option<ParseError>)

  /** A parsed line is yielded when it is not a placeholder and its tokens cover the query. */
  predicate Matches(e: Entry, query: set<string>) {
    !IsPlaceholder(e.display) && query <= e.tokens
  }

  /** `{word.upper() for word in words}`: duplicates collapse. */
  function QuerySet(words: seq<string>): (q: set<string>)
    ensures forall k :: 0 <= k < |words| ==> Upper(words[k]) in q
    ensures forall w :: w in q ==> exists k :: 0 <= k < |words| && w == Upper(words[k])
  {
    set w | w in words :: Upper(w)
  }

  /** The outcome of parsing each line. */
  function Parsed(lines: seq<string>): (rs: seq<Result<Entry, ParseError>>)
    ensures |rs| == |lines| && forall i :: 0 <= i < |lines| ==> rs[i] == Parse(lines[i])
  {
    seq(|lines|, i requires 0 <= i < |lines| => Parse(lines[i]))
  }

  /** The loop of `scan`, over the lines' parse outcomes: it stops at the first failure. */
  function ScanEntries(rs: seq<Result<Entry, ParseError>>, query: set<string>): ScanOut
  {
    if |rs| == 0 then ScanOut([], None)
    else if rs[0].Err? then ScanOut([], Some(rs[0].error))
    else
      var rest := ScanEntries(rs[1..], query);
      if Matches(rs[0].value, query) then ScanOut([HitOf(rs[0].value)] + rest.hits, rest.failure) else rest
  }

  /** The loop of `scan` over the lines, for an already-normalised query. */
  function ScanLines(lines: seq<string>, query: set<string>): ScanOut
  {
    ScanEntries(Parsed(lines), query)
  }

  function Scan(lines: seq<string>, words: seq<string>): (r: ScanOut)
    ensures |words| == 0 ==> r == ScanOut([], None)
  {
    if |words| == 0 then ScanOut([], None) else ScanLines(lines, QuerySet(words))
  }

  /** Outcome `i` is a parsed entry that matches the query. */
  predicate YieldsAt(rs: seq<Result<Entry, ParseError>>, i: int, query: set<string>)
    requires 0 <= i < |rs|
  {
    rs[i].Ok? && Matches(rs[i].value, query)
  }

  /** Line `i` parses and is yielded for the query. */
  predicate Yields(lines: seq<string>, i: int, query: set<string>)
    requires 0 <= i < |lines|
  {
    Parse(lines[i]).Ok? && Matches(Parse(lines[i]).value, query)
  }

  lemma {:induction false} ScanEntriesAppend(a: seq<Result<Entry, ParseError>>, b: seq<Result<Entry, ParseError>>, query: set<string>)
    ensures ScanEntries(a + b, query) ==
      if ScanEntries(a, query).failure.Some? then ScanEntries(a, query)
      else ScanOut(ScanEntries(a, query).hits + ScanEntries(b, query).hits, ScanEntries(b, query).failure)
  {
    if |a| == 0 {
      assert a + b == b;
    } else {
      var ab := a + b;
      assert ab[0] == a[0];
      assert ab[1..] == a[1..] + b;
      ScanEntriesAppend(a[1..], b, query);
      if a[0].Ok? && Matches(a[0].value, query) {
        var h := HitOf(a[0].value);
        var ra, rb := ScanEntries(a[1..], query), ScanEntries(b, query);
        if ra.failure.None? {
          SeqAppendAssoc([h], ra.hits, rb.hits);
        }
      }
    }
  }

  /** Scanning a concatenation scans the first part, then (unless it failed) the second: output is in input order. */
  lemma ScanLinesAppend(a: seq<string>, b: seq<string>, query: set<string>)
    ensures ScanLines(a + b, query) ==
      if ScanLines(a, query).failure.Some? then ScanLines(a, query)
      else ScanOut(ScanLines(a, query).hits + ScanLines(b, query).hits, ScanLines(b, query).failure)
  {
    ParsedAppend(a, b);
    ScanEntriesAppend(Parsed(a), Parsed(b), query);
  }

  lemma ParsedAppend(a: seq<string>, b: seq<string>)
    ensures Parsed(a + b) == Parsed(a) + Parsed(b)
  {
    var l, r := Parsed(a + b), Parsed(a) + Parsed(b);
    assert |l| == |r|;
    forall i | 0 <= i < |l| ensures l[i] == r[i] {
      if i < |a| {
        assert (a + b)[i] == a[i];
      } else {
        assert (a + b)[i] == b[i - |a|];
      }
    }
  }

  lemma {:induction false} ScanEntriesFails(rs: seq<Result<Entry, ParseError>>, query: set<string>)
    ensures ScanEntries(rs, query).failure.None? <==> forall i :: 0 <= i < |rs| ==> rs[i].Ok?
  {
    if |rs| > 0 {
      ScanEntriesFails(rs[1..], query);
      assert forall i :: 1 <= i < |rs| ==> rs[i] == rs[1..][i - 1];
    }
  }

  lemma {:induction false} ScanEntriesSound(rs: seq<Result<Entry, ParseError>>, query: set<string>)
    ensures forall h :: h in ScanEntries(rs, query).hits ==>
      exists i :: 0 <= i < |rs| && YieldsAt(rs, i, query) && h == HitOf(rs[i].value)
  {
    if |rs| > 0 && rs[0].Ok? {
      var tail := rs[1..];
      ScanEntriesSound(tail, query);
      var rest := ScanEntries(tail, query);
      forall h | h in ScanEntries(rs, query).hits
        ensures exists i :: 0 <= i < |rs| && YieldsAt(rs, i, query) && h == HitOf(rs[i].value)
      {
        if h in rest.hits {
          var i :| 0 <= i < |tail| && YieldsAt(tail, i, query) && h == HitOf(tail[i].value);
          assert rs[i + 1] == tail[i];
          assert YieldsAt(rs, i + 1, query);
        } else {
          assert YieldsAt(rs, 0, query);
        }
      }
    }
  }

  lemma {:induction false} ScanEntriesComplete(rs: seq<Result<Entry, ParseError>>, query: set<string>)
    requires ScanEntries(rs, query).failure.None?
    ensures forall i :: 0 <= i < |rs| && YieldsAt(rs, i, query) ==> HitOf(rs[i].value) in ScanEntries(rs, query).hits
  {
    if |rs| > 0 {
      var tail := rs[1..];
      ScanEntriesComplete(tail, query);
      forall i | 0 <= i < |rs| && YieldsAt(rs, i, query)
        ensures HitOf(rs[i].value) in ScanEntries(rs, query).hits
      {
        if i > 0 {
          assert rs[i] == tail[i - 1];
          assert YieldsAt(tail, i - 1, query);
        }
      }
    }
  }

  /** The scan stops with the error that collecting every parse outcome in order would stop with. */
  lemma {:induction false} ScanEntriesFailure(rs: seq<Result<Entry, ParseError>>, query: set<string>)
    ensures ScanEntries(rs, query).failure == if AllOk(rs).Err? then Some(AllOk(rs).error) else None
  {
    if |rs| > 0 && rs[0].Ok? {
      ScanEntriesFailure(rs[1..], query);
    }
  }

  /** Each outcome contributes at most one pair. */
  lemma {:induction false} ScanEntriesLength(rs: seq<Result<Entry, ParseError>>, query: set<string>)
    ensures |ScanEntries(rs, query).hits| <= |rs|
  {
    if |rs| > 0 && rs[0].Ok? {
      ScanEntriesLength(rs[1..], query);
    }
  }

  /**
   * One line: a failing line raises its own error and yields nothing; a
   * parsed line is yielded once when it matches. With `ScanLinesAppend` this
   * fixes the output of every scan.
   */
  lemma ScanLinesOne(line: string, query: set<string>)
    ensures ScanLines([line], query) ==
      if Parse(line).Err? then ScanOut([], Some(Parse(line).error))
      else if Matches(Parse(line).value, query) then ScanOut([HitOf(Parse(line).value)], None)
      else ScanOut([], None)
  {
    var rs := Parsed([line]);
    assert rs[0] == Parse(line);
    assert ScanEntries(rs[1..], query) == ScanOut([], None);
    if Parse(line).Ok? {
      assert [HitOf(Parse(line).value)] + [] == [HitOf(Parse(line).value)];
    }
  }

  /** A scan that fails stops with the error of the first line that does not parse. */
  lemma ScanLinesFirstFailure(lines: seq<string>, query: set<string>)
    requires ScanLines(lines, query).failure.Some?
    ensures exists i :: (0 <= i < |lines| && Parse(lines[i]) == Err(ScanLines(lines, query).failure.value) &&
      forall j :: 0 <= j < i ==> Parse(lines[j]).Ok?)
  {
    var rs := Parsed(lines);
    ScanEntriesFailure(rs, query);
    AllOkSpec(rs);
    var i :| 0 <= i < |rs| && rs[i] == Err(AllOk(rs).error) && forall j :: 0 <= j < i ==> rs[j].Ok?;
    assert Parse(lines[i]) == Err(ScanLines(lines, query).failure.value);
  }

  /**
   * The scan fails exactly when some line fails to parse, and then with the
   * first failing line's error; it yields at most one pair per line; every
   * yielded pair comes from a matching line, and when the scan completes every
   * matching line is yielded.
   */
  lemma ScanLinesSpec(lines: seq<string>, query: set<string>)
    ensures ScanLines(lines, query).failure.None? <==> forall i :: 0 <= i < |lines| ==> Parse(lines[i]).Ok?
    ensures ScanLines(lines, query).failure.Some? ==>
      exists i :: (0 <= i < |lines| && Parse(lines[i]) == Err(ScanLines(lines, query).failure.value) &&
        forall j :: 0 <= j < i ==> Parse(lines[j]).Ok?)
    ensures |ScanLines(lines, query).hits| <= |lines|
    ensures forall h :: h in ScanLines(lines, query).hits ==>
      exists i :: 0 <= i < |lines| && Yields(lines, i, query) && h == HitOf(Parse(lines[i]).value)
    ensures ScanLines(lines, query).failure.None? ==>
      forall i :: 0 <= i < |lines| && Yields(lines, i, query) ==> HitOf(Parse(lines[i]).value) in ScanLines(lines, query).hits
  {
    var rs := Parsed(lines);
    ScanEntriesFails(rs, query);
    ScanEntriesLength(rs, query);
    if ScanLines(lines, query).failure.Some? {
      ScanLinesFirstFailure(lines, query);
    }
    ScanEntriesSound(rs, query);
    forall h | h in ScanLines(lines, query).hits
      ensures exists i :: 0 <= i < |lines| && Yields(lines, i, query) && h == HitOf(Parse(lines[i]).value)
    {
      var i :| 0 <= i < |rs| && YieldsAt(rs, i, query) && h == HitOf(rs[i].value);
      assert Yields(lines, i, query);
    }
    if ScanLines(lines, query).failure.None? {
      ScanEntriesComplete(rs, query);
      forall i | 0 <= i < |lines| && Yields(lines, i, query)
        ensures HitOf(Parse(lines[i]).value) in ScanLines(lines, query).hits
      {
        assert YieldsAt(rs, i, query);
      }
    }
  }

  /** The code points `scan` yields, when it completes: exactly those of matching lines. */
  lemma ScanCodes(lines: seq<string>, words: seq<string>, c: nat)
    requires |words| > 0
    requires forall i :: 0 <= i < |lines| ==> Parse(lines[i]).Ok?
    ensures Scan(lines, words).failure.None?
    ensures c in HitCodes(Scan(lines, words).hits) <==>
      exists i :: 0 <= i < |lines| && Yields(lines, i, QuerySet(words)) && Parse(lines[i]).value.cp == c
  {
    var q := QuerySet(words);
    var hits := Scan(lines, words).hits;
    ScanLinesSpec(lines, q);
    if c in HitCodes(hits) {
      var h :| h in hits && h.cp == c;
      var i :| 0 <= i < |lines| && Yields(lines, i, q) && h == HitOf(Parse(lines[i]).value);
    }
    if exists i :: 0 <= i < |lines| && Yields(lines, i, q) && Parse(lines[i]).value.cp == c {
      var i :| 0 <= i < |lines| && Yields(lines, i, q) && Parse(lines[i]).value.cp == c;
      assert HitOf(Parse(lines[i]).value) in hits;
    }
  }

  lemma {:induction false} ScanEntriesNone(rs: seq<Result<Entry, ParseError>>, query: set<string>)
    requires forall i :: 0 <= i < |rs| ==> !YieldsAt(rs, i, query)
    ensures ScanEntries(rs, query).hits == []
  {
    if |rs| > 0 && rs[0].Ok? {
      assert !YieldsAt(rs, 0, query);
      forall i | 0 <= i < |rs[1..]| ensures !YieldsAt(rs[1..], i, query) {
        assert rs[1..][i] == rs[i + 1];
        assert !YieldsAt(rs, i + 1, query);
      }
      ScanEntriesNone(rs[1..], query);
    }
  }

  /** A query word that is not a possible token (empty, or with a hyphen or whitespace) matches no line. */
  lemma ScanNonTokenWord(lines: seq<string>, words: seq<string>, k: nat)
    requires k < |words| && !IsToken(words[k])
    ensures Scan(lines, words).hits == []
  {
    var q := QuerySet(words);
    var w := Upper(words[k]);
    assert !IsToken(w) by {
      if |words[k]| > 0 {
        var j :| 0 <= j < |words[k]| && (IsSpace(words[k][j]) || words[k][j] == '-');
        UpperKeepsSeparators(words[k], j);
      }
    }
    var rs := Parsed(lines);
    forall i | 0 <= i < |rs| ensures !YieldsAt(rs, i, q) {
      if rs[i].Ok? {
        ParseSpec(lines[i]);
        assert w !in rs[i].value.tokens;
      }
    }
    ScanEntriesNone(rs, q);
  }
}
