/**
 * charfinder2.py: the inverted-index character finder. Lines of
 * UnicodeData.txt are filtered, parsed (folding in the old name only when it
 * adds words), accumulated into a word index and a character index, and
 * queried with an AND of upper-cased words.
 */
module CharFinder2 {
  import opened Text
  import opened Hex
  import opened Results
  import opened Ucd

  // ---------------------------------------------------------------------------
  // read_ucd: the line filter applied to the text once it has been read

  /** A line is kept when it is not blank after `strip()` and does not start with `#`. */
  predicate KeepLine(line: string) {
    Strip(line) != "" && !StartsWith(line, '#')
  }

  function FilterLines(lines: seq<string>): (r: seq<string>)
    ensures |r| <= |lines|
    ensures forall l :: l in r <==> l in lines && KeepLine(l)
  {
    if |lines| == 0 then []
    else (if KeepLine(lines[0]) then [lines[0]] else []) + FilterLines(lines[1..])
  }

  /** Filtering a concatenation filters each part: the kept lines stay in input order. */
  lemma {:induction false} FilterLinesAppend(a: seq<string>, b: seq<string>)
    ensures FilterLines(a + b) == FilterLines(a) + FilterLines(b)
  {
    if |a| == 0 {
      assert a + b == b;
    } else {
      var head := if KeepLine(a[0]) then [a[0]] else [];
      assert (a + b)[0] == a[0];
      assert (a + b)[1..] == a[1..] + b;
      assert FilterLines(a + b) == head + FilterLines(a[1..] + b);
      assert FilterLines(a) == head + FilterLines(a[1..]);
      FilterLinesAppend(a[1..], b);
      SeqAppendAssoc(head, FilterLines(a[1..]), FilterLines(b));
    }
  }

  /** `text.split('\n')` filtered by `KeepLine`. */
  function ReadUcd(text: string): (r: seq<string>)
    ensures forall l :: l in r ==> '\n' !in l
    ensures forall l :: l in r ==> !StartsWith(l, '#') && exists i :: 0 <= i < |l| && !IsSpace(l[i])
  {
    var r := FilterLines(SplitOn(text, '\n'));
    assert forall l :: l in r ==> Strip(l) != "" && !AllSpace(l);
    r
  }

  /** Reading the lines of a text that is those lines joined by newlines keeps exactly the kept lines. */
  lemma ReadUcdOfLines(lines: seq<string>)
    requires |lines| >= 1
    requires forall i :: 0 <= i < |lines| ==> '\n' !in lines[i]
    ensures ReadUcd(Join(lines, '\n')) == FilterLines(lines)
  {
    SplitOnJoin(lines, '\n');
  }

  /** The filter in its own terms: a line is kept exactly when it has a non-whitespace character and its first character is not `#`. */
  lemma KeepLineSpec(line: string)
    ensures KeepLine(line) <==> (exists i :: 0 <= i < |line| && !IsSpace(line[i])) && (|line| == 0 || line[0] != '#')
  {
  }

  /** A comment marker preceded by whitespace does not make a line a comment: `#` is tested at position 0 only. */
  lemma IndentedCommentIsKept(line: string, k: nat)
    requires 0 < k < |line| && line[k] == '#' && AllSpace(line[..k])
    ensures KeepLine(line)
  {
    assert line[..k][0] == line[0];
    assert !IsSpace(line[k]);
  }

  // ---------------------------------------------------------------------------
  // parse

  /** The tokens of the old name add a word the primary name lacks. */
  predicate AddsWords(name: string, oldName: string) {
    !(Tokens(oldName) <= Tokens(name))
  }

  function Parse(line: string): Result<Entry, ParseError>
  {
    ParseFields(Fields(line))
  }

  function ParseFields(parts: seq<string>): Result<Entry, ParseError>
    requires |parts| >= 1
  {
    var cp :- DecodeCodePoint(parts[0]);
    if |parts| < 2 then Err(MissingField(1))
    else if |parts| <= OldNameField then Err(MissingField(OldNameField))
    else Ok(Merge(cp, parts[1], parts[OldNameField]))
  }

  /** The entry for a line with both names: the old name is merged in only when it adds a word. */
  function Merge(cp: nat, name: string, oldName: string): Entry
  {
    var nameSet := Tokens(name);
    if oldName != "" then
      var oldNameSet := Tokens(oldName);
      if oldNameSet - nameSet != {} then
        Entry(cp, name + " | " + oldName, nameSet + oldNameSet)
      else
        Entry(cp, name, nameSet)
    else
      Entry(cp, name, nameSet)
  }

  /** The three ways `parse` fails, in the order it meets them. */
  lemma ParseFieldsErrors(parts: seq<string>)
    requires |parts| >= 1
    ensures ParseFields(parts).Ok? <==> DecodeCodePoint(parts[0]).Ok? && |parts| > OldNameField
    ensures DecodeCodePoint(parts[0]).Err? ==> ParseFields(parts) == Err(DecodeCodePoint(parts[0]).error)
    ensures DecodeCodePoint(parts[0]).Ok? && |parts| < 2 ==> ParseFields(parts) == Err(MissingField(1))
    ensures DecodeCodePoint(parts[0]).Ok? && 2 <= |parts| <= OldNameField ==> ParseFields(parts) == Err(MissingField(OldNameField))
  {
  }

  /** The old name's tokens are not all among the name's: set difference and subset agree. */
  lemma AddsWordsIff(name: string, oldName: string)
    ensures AddsWords(name, oldName) <==> Tokens(oldName) - Tokens(name) != {}
  {
    var a, b := Tokens(oldName), Tokens(name);
    if a - b == {} {
      forall x | x in a ensures x in b {
        assert x !in a - b;
      }
    } else {
      var x :| x in a - b;
    }
  }

  /** The tokens are both names' tokens; the display text carries the old name only when it adds a word. */
  lemma MergeSpec(cp: nat, name: string, oldName: string)
    ensures var e := Merge(cp, name, oldName);
      && e.cp == cp
      && e.tokens == Tokens(name) + Tokens(oldName)
      && (AddsWords(name, oldName) ==> e.display == name + " | " + oldName)
      && (!AddsWords(name, oldName) ==> e.display == name && e.tokens == Tokens(name))
  {
    AddsWordsIff(name, oldName);
    if oldName == "" {
      TokensOfEmpty();
    } else if !AddsWords(name, oldName) {
      assert Tokens(oldName) <= Tokens(name);
    }
  }

  lemma ParseFieldsOk(parts: seq<string>)
    requires |parts| >= 1 && ParseFields(parts).Ok?
    ensures |parts| > OldNameField
    ensures var e, name, oldName := ParseFields(parts).value, parts[1], parts[OldNameField];
      && IsHexText(parts[0]) && e.cp == HexValue(parts[0]) && e.cp < CodePointLimit
      && e.tokens == Tokens(name) + Tokens(oldName)
      && (AddsWords(name, oldName) ==> e.display == name + " | " + oldName)
      && (!AddsWords(name, oldName) ==> e.display == name && e.tokens == Tokens(name))
  {
    var cp := DecodeCodePoint(parts[0]).value;
    assert ParseFields(parts) == Ok(Merge(cp, parts[1], parts[OldNameField]));
    MergeSpec(cp, parts[1], parts[OldNameField]);
  }

  /** The merged display text starts with a `<` exactly when the name does. */
  lemma MergedPlaceholder(name: string, oldName: string)
    ensures IsPlaceholder(name + " | " + oldName) <==> IsPlaceholder(name)
  {
    var d := name + " | " + oldName;
    assert d == name + (" | " + oldName);
    if |name| > 0 {
      assert d[0] == name[0];
    } else {
      assert d[0] == ' ';
    }
  }

  /**
   * `parse` succeeds exactly on lines with a decodable field 0 and at least 11 fields;
   * the tokens are always the union of both names' tokens, while the old name
   * reaches the display text only when it adds a word.
   */
  lemma ParseSpec(line: string)
    ensures Parse(line).Ok? <==> DecodeCodePoint(Fields(line)[0]).Ok? && |Fields(line)| > OldNameField
    ensures DecodeCodePoint(Fields(line)[0]).Err? ==> Parse(line) == Err(DecodeCodePoint(Fields(line)[0]).error)
    ensures DecodeCodePoint(Fields(line)[0]).Ok? && |Fields(line)| < 2 ==> Parse(line) == Err(MissingField(1))
    ensures DecodeCodePoint(Fields(line)[0]).Ok? && 2 <= |Fields(line)| <= OldNameField ==> Parse(line) == Err(MissingField(OldNameField))
    ensures Parse(line).Ok? ==> var f := Fields(line);
      && IsHexText(f[0]) && Parse(line).value.cp == HexValue(f[0]) && Parse(line).value.cp < CodePointLimit
      && Parse(line).value.tokens == Tokens(f[1]) + Tokens(f[OldNameField])
      && (forall t :: t in Parse(line).value.tokens ==> IsToken(t))
      && (IsPlaceholder(Parse(line).value.display) <==> IsPlaceholder(f[1]))
      && (AddsWords(f[1], f[OldNameField]) ==> Parse(line).value.display == f[1] + " | " + f[OldNameField])
      && (!AddsWords(f[1], f[OldNameField]) ==> Parse(line).value.display == f[1] && Parse(line).value.tokens == Tokens(f[1]))
  {
    var parts := Fields(line);
    ParseFieldsErrors(parts);
    if ParseFields(parts).Ok? {
      ParseFieldsOk(parts);
      MergedPlaceholder(parts[1], parts[OldNameField]);
    }
  }

  /** The display text, tokenised, contains every word the entry is indexed under. */
  lemma DisplayCoversTokens(line: string)
    requires Parse(line).Ok?
    ensures Parse(line).value.tokens <= Tokens(Parse(line).value.display)
  {
    ParseSpec(line);
    var f := Fields(line);
    var name, oldName := f[1], f[OldNameField];
    if AddsWords(name, oldName) {
      TokensOfBarJoin(name, oldName);
    }
  }

  /** The outcome of parsing each line. */
  function Parsed(lines: seq<string>): (rs: seq<Result<Entry, ParseError>>)
    ensures |rs| == |lines| && forall i :: 0 <= i < |lines| ==> rs[i] == Parse(lines[i])
  {
    seq(|lines|, i requires 0 <= i < |lines| => Parse(lines[i]))
  }

  /** Every line parsed, in order; the first failing line's error otherwise. */
  function ParseAll(lines: seq<string>): (r: Result<seq<Entry>, ParseError>)
    ensures r.Ok? ==> |r.value| == |lines| && forall i :: 0 <= i < |lines| ==> Parse(lines[i]) == Ok(r.value[i])
  {
    AllOk(Parsed(lines))
  }

  /** The fold fails exactly when some line fails, and then with the first failing line's error. */
  lemma ParseAllFails(lines: seq<string>)
    ensures ParseAll(lines).Ok? <==> forall i :: 0 <= i < |lines| ==> Parse(lines[i]).Ok?
    ensures ParseAll(lines).Err? ==>
      exists i :: (0 <= i < |lines| && Parse(lines[i]) == Err(ParseAll(lines).error) && forall j :: 0 <= j < i ==> Parse(lines[j]).Ok?)
  {
    AllOkSpec(Parsed(lines));
  }

  // ---------------------------------------------------------------------------
  // build_index

  /** `word_idx` (word to code points) and `char_idx` (code point to display text). */
  datatype Index = Index(words: map<string, set<nat>>, chars: map<nat, string>)

  const EmptyIndex := Index(map[], map[])

  predicate Indexed(e: Entry) {
    !IsPlaceholder(e.display)
  }

  function Lookup(words: map<string, set<nat>>, word: string): set<nat> {
    if word in words then words[word] else {}
  }

  /** One pass of the build loop: placeholders are skipped, otherwise every token gains the code point. */
  function AddEntry(idx: Index, e: Entry): (r: Index)
    ensures !Indexed(e) ==> r == idx
    ensures Indexed(e) ==> r.chars == idx.chars[e.cp := e.display]
    ensures Indexed(e) ==> r.words.Keys == idx.words.Keys + e.tokens
    ensures Indexed(e) ==> forall t :: t in r.words ==> r.words[t] == Lookup(idx.words, t) + (if t in e.tokens then {e.cp} else {})
  {
    if !Indexed(e) then idx
    else
      Index(
        map t | t in idx.words.Keys + e.tokens :: Lookup(idx.words, t) + (if t in e.tokens then {e.cp} else {}),
        idx.chars[e.cp := e.display])
  }

  /** The build loop as a left fold over the parsed lines. */
  function IndexEntries(es: seq<Entry>): Index
  {
    if |es| == 0 then EmptyIndex
    else AddEntry(IndexEntries(es[..|es| - 1]), es[|es| - 1])
  }

  /** No later indexed entry has the same code point. */
  predicate LastFor(es: seq<Entry>, i: nat)
    requires i < |es|
  {
    forall j :: i < j < |es| && Indexed(es[j]) ==> es[j].cp != es[i].cp
  }

  /** Some indexed entry for `c` has `t` among its tokens. */
  predicate Contributes(es: seq<Entry>, t: string, c: nat) {
    exists i :: 0 <= i < |es| && Indexed(es[i]) && es[i].cp == c && t in es[i].tokens
  }

  predicate HasEntry(es: seq<Entry>, c: nat) {
    exists i :: 0 <= i < |es| && Indexed(es[i]) && es[i].cp == c
  }

  predicate InWords(idx: Index, t: string, c: nat) {
    t in idx.words && c in idx.words[t]
  }

  lemma ContributesStep(es: seq<Entry>, t: string, c: nat)
    requires |es| > 0
    ensures Contributes(es, t, c) <==>
      Contributes(es[..|es| - 1], t, c) || (Indexed(es[|es| - 1]) && es[|es| - 1].cp == c && t in es[|es| - 1].tokens)
  {
    var pre := es[..|es| - 1];
    if Contributes(es, t, c) {
      var i :| 0 <= i < |es| && Indexed(es[i]) && es[i].cp == c && t in es[i].tokens;
      if i < |es| - 1 {
        assert pre[i] == es[i];
      }
    }
    if Contributes(pre, t, c) {
      var i :| 0 <= i < |pre| && Indexed(pre[i]) && pre[i].cp == c && t in pre[i].tokens;
      assert es[i] == pre[i];
    }
  }

  lemma HasEntryStep(es: seq<Entry>, c: nat)
    requires |es| > 0
    ensures HasEntry(es, c) <==> HasEntry(es[..|es| - 1], c) || (Indexed(es[|es| - 1]) && es[|es| - 1].cp == c)
  {
    var pre := es[..|es| - 1];
    if HasEntry(es, c) {
      var i :| 0 <= i < |es| && Indexed(es[i]) && es[i].cp == c;
      if i < |es| - 1 {
        assert pre[i] == es[i];
      }
    }
    if HasEntry(pre, c) {
      var i :| 0 <= i < |pre| && Indexed(pre[i]) && pre[i].cp == c;
      assert es[i] == pre[i];
    }
  }

  lemma AddEntryWords(idx: Index, e: Entry, t: string, c: nat)
    ensures InWords(AddEntry(idx, e), t, c) <==> InWords(idx, t, c) || (Indexed(e) && e.cp == c && t in e.tokens)
  {
  }

  lemma {:induction false} IndexWords(es: seq<Entry>)
    ensures forall t, c :: InWords(IndexEntries(es), t, c) <==> Contributes(es, t, c)
  {
    if |es| > 0 {
      var pre := es[..|es| - 1];
      IndexWords(pre);
      forall t, c ensures InWords(IndexEntries(es), t, c) <==> Contributes(es, t, c) {
        AddEntryWords(IndexEntries(pre), es[|es| - 1], t, c);
        ContributesStep(es, t, c);
      }
    }
  }

  lemma {:induction false} IndexChars(es: seq<Entry>)
    ensures forall c :: c in IndexEntries(es).chars <==> HasEntry(es, c)
  {
    if |es| > 0 {
      IndexChars(es[..|es| - 1]);
      forall c ensures c in IndexEntries(es).chars <==> HasEntry(es, c) {
        HasEntryStep(es, c);
      }
    }
  }

  /** An entry that is last for its code point is still last once the final entry is dropped. */
  lemma LastForPrefix(es: seq<Entry>, i: nat)
    requires i < |es| - 1 && LastFor(es, i)
    ensures LastFor(es[..|es| - 1], i)
  {
    var pre := es[..|es| - 1];
    forall j | i < j < |pre| && Indexed(pre[j]) ensures pre[j].cp != pre[i].cp {
      assert pre[j] == es[j];
    }
  }

  lemma {:induction false} IndexLast(es: seq<Entry>)
    ensures forall i :: 0 <= i < |es| && Indexed(es[i]) && LastFor(es, i) ==>
      es[i].cp in IndexEntries(es).chars && IndexEntries(es).chars[es[i].cp] == es[i].display
  {
    if |es| > 0 {
      var pre := es[..|es| - 1];
      var e := es[|es| - 1];
      IndexLast(pre);
      forall i | 0 <= i < |es| && Indexed(es[i]) && LastFor(es, i)
        ensures es[i].cp in IndexEntries(es).chars && IndexEntries(es).chars[es[i].cp] == es[i].display
      {
        if i < |es| - 1 {
          LastForPrefix(es, i);
          assert pre[i] == es[i];
          assert e.cp != es[i].cp || !Indexed(e);
        }
      }
    }
  }

  lemma {:induction false} IndexNonEmpty(es: seq<Entry>)
    ensures forall t :: t in IndexEntries(es).words ==> IndexEntries(es).words[t] != {}
  {
    if |es| > 0 {
      IndexNonEmpty(es[..|es| - 1]);
    }
  }

  /**
   * The word index holds `c` under `t` exactly when some indexed line for `c` has
   * the token `t`; the character index holds exactly the indexed code points,
   * with the display text of the last line for each.
   */
  lemma IndexEntriesSpec(es: seq<Entry>)
    ensures forall t, c :: InWords(IndexEntries(es), t, c) <==> Contributes(es, t, c)
    ensures forall c :: c in IndexEntries(es).chars <==> HasEntry(es, c)
    ensures forall i :: 0 <= i < |es| && Indexed(es[i]) && LastFor(es, i) ==>
      es[i].cp in IndexEntries(es).chars && IndexEntries(es).chars[es[i].cp] == es[i].display
    ensures forall t :: t in IndexEntries(es).words ==> IndexEntries(es).words[t] != {}
  {
    IndexWords(es);
    IndexChars(es);
    IndexLast(es);
    IndexNonEmpty(es);
  }

  /** Every code point in any word set has an entry in the character index. */
  predicate Consistent(idx: Index) {
    forall t, c :: t in idx.words && c in idx.words[t] ==> c in idx.chars
  }

  /** `build_index` over already-read lines: any parse failure aborts the whole build. */
  function BuildIndex(lines: seq<string>): (r: Result<Index, ParseError>)
    ensures r.Ok? <==> forall i :: 0 <= i < |lines| ==> Parse(lines[i]).Ok?
    ensures r.Err? ==> r.error == ParseAll(lines).error
    ensures r.Ok? ==> Consistent(r.value)
    ensures r.Ok? ==> forall t :: t in r.value.words ==> IsToken(t) && r.value.words[t] != {}
  {
    ParseAllFails(lines);
    var es :- ParseAll(lines);
    IndexEntriesSpec(es);
    var idx := IndexEntries(es);
    assert Consistent(idx) by {
      forall t, c | t in idx.words && c in idx.words[t] ensures c in idx.chars {
        assert InWords(idx, t, c);
      }
    }
    assert forall t :: t in idx.words ==> IsToken(t) by {
      forall t | t in idx.words ensures IsToken(t) {
        var c :| c in idx.words[t];
        assert InWords(idx, t, c);
        var i :| 0 <= i < |es| && Indexed(es[i]) && es[i].cp == c && t in es[i].tokens;
        assert Parse(lines[i]) == Ok(es[i]);
        ParseSpec(lines[i]);
      }
    }
    Ok(idx)
  }

  /** The built index in terms of the source lines. */
  lemma BuildIndexSpec(lines: seq<string>)
    requires BuildIndex(lines).Ok?
    ensures var idx := BuildIndex(lines).value; var es := ParseAll(lines).value;
      && (forall t, c :: InWords(idx, t, c) <==> Contributes(es, t, c))
      && (forall c :: c in idx.chars <==> HasEntry(es, c))
      && (forall i :: 0 <= i < |es| && Indexed(es[i]) && LastFor(es, i) ==> es[i].cp in idx.chars && idx.chars[es[i].cp] == es[i].display)
  {
    IndexEntriesSpec(ParseAll(lines).value);
  }

  /** `read_index`: the stored pair when there is one, a fresh build of the text otherwise. */
  function ReadIndex(stored: Option<Index>, text: string): (r: Result<Index, ParseError>)
    ensures stored.Some? ==> r == Ok(stored.value)
    ensures stored.None? && r.Ok? ==> Consistent(r.value)
    ensures stored.None? ==> (r.Ok? <==> forall l :: l in ReadUcd(text) ==> Parse(l).Ok?)
  {
    if stored.Some? then Ok(stored.value) else BuildIndex(ReadUcd(text))
  }

  // ---------------------------------------------------------------------------
  // search

  /** `reduce(and_, ...)` over the upper-cased query words. */
  function Found(words: map<string, set<nat>>, query: seq<string>): (r: set<nat>)
    requires |query| > 0
    ensures forall c :: c in r <==> forall k :: 0 <= k < |query| ==> c in Lookup(words, Upper(query[k]))
  {
    if |query| == 1 then Lookup(words, Upper(query[0]))
    else
      var pre := query[..|query| - 1];
      var r := Found(words, pre) * Lookup(words, Upper(query[|query| - 1]));
      assert forall k :: 0 <= k < |pre| ==> pre[k] == query[k];
      r
  }

  /** `m` is the least element of `s`. */
  predicate IsMinimum(s: set<nat>, m: nat) {
    m in s && forall x :: x in s ==> m <= x
  }

  lemma {:induction false} HasMinimum(s: set<nat>)
    requires s != {}
    ensures exists m :: IsMinimum(s, m)
  {
    var y :| y in s;
    if s == {y} {
      assert IsMinimum(s, y);
    } else {
      HasMinimum(s - {y});
      var m :| IsMinimum(s - {y}, m);
      var least := if y < m then y else m;
      forall x | x in s ensures least <= x {
        if x != y { assert x in s - {y}; }
      }
      assert IsMinimum(s, least);
    }
  }

  function Minimum(s: set<nat>): (m: nat)
    requires s != {}
    ensures m in s && forall x :: x in s ==> m <= x
  {
    HasMinimum(s);
    var m :| IsMinimum(s, m);
    m
  }

  /** `sorted(s)`. */
  function SortedCodes(s: set<nat>): (r: seq<nat>)
    ensures forall i, j :: 0 <= i < j < |r| ==> r[i] < r[j]
    ensures forall c :: c in r <==> c in s
    decreases |s|
  {
    if s == {} then []
    else
      var m := Minimum(s);
      [m] + SortedCodes(s - {m})
  }

  function HitsFor(chars: map<nat, string>, codes: seq<nat>): (r: seq<Hit>)
    requires forall i :: 0 <= i < |codes| ==> codes[i] in chars
    ensures |r| == |codes|
    ensures forall i :: 0 <= i < |r| ==> r[i] == Hit(codes[i], chars[codes[i]])
    ensures forall c :: c in HitCodes(r) <==> c in codes
  {
    var r := seq(|codes|, i requires 0 <= i < |codes| => Hit(codes[i], chars[codes[i]]));
    assert forall c :: c in HitCodes(r) <==> c in codes by {
      forall c ensures c in HitCodes(r) <==> c in codes {
        if c in codes {
          var i :| 0 <= i < |codes| && codes[i] == c;
          assert r[i] in r;
        }
      }
    }
    r
  }

  lemma FoundIsIndexed(idx: Index, query: seq<string>)
    requires Consistent(idx) && |query| > 0
    ensures forall c :: c in Found(idx.words, query) ==> c in idx.chars
  {
    forall c | c in Found(idx.words, query) ensures c in idx.chars {
      assert c in Lookup(idx.words, Upper(query[0]));
    }
  }

  /** `search`: nothing for an empty query, else the sorted code points every query word indexes. */
  function Search(idx: Index, query: seq<string>): (r: seq<Hit>)
    requires Consistent(idx)
    ensures |query| == 0 ==> r == []
    ensures forall i, j :: 0 <= i < j < |r| ==> r[i].cp < r[j].cp
    ensures forall i :: 0 <= i < |r| ==> r[i].cp in idx.chars && r[i].display == idx.chars[r[i].cp]
    ensures forall c :: c in HitCodes(r) <==> |query| > 0 && forall k :: 0 <= k < |query| ==> c in Lookup(idx.words, Upper(query[k]))
  {
    if |query| == 0 then []
    else
      FoundIsIndexed(idx, query);
      HitsFor(idx.chars, SortedCodes(Found(idx.words, query)))
  }

  /** Over a built index, a code point is found exactly when every query word is a token of some indexed line for it. */
  lemma SearchBuiltIndex(lines: seq<string>, query: seq<string>, c: nat)
    requires BuildIndex(lines).Ok?
    ensures c in HitCodes(Search(BuildIndex(lines).value, query)) <==>
      |query| > 0 && forall k :: 0 <= k < |query| ==> Contributes(ParseAll(lines).value, Upper(query[k]), c)
  {
    var idx := BuildIndex(lines).value;
    BuildIndexSpec(lines);
    forall k | 0 <= k < |query|
      ensures c in Lookup(idx.words, Upper(query[k])) <==> Contributes(ParseAll(lines).value, Upper(query[k]), c)
    {
      assert c in Lookup(idx.words, Upper(query[k])) <==> InWords(idx, Upper(query[k]), c);
    }
  }

  /** A query word that is not a possible token (empty, or with a hyphen or whitespace) makes the result empty. */
  lemma SearchNonTokenWord(lines: seq<string>, query: seq<string>, k: nat)
    requires BuildIndex(lines).Ok?
    requires k < |query| && !IsToken(query[k])
    ensures Search(BuildIndex(lines).value, query) == []
  {
    var idx := BuildIndex(lines).value;
    var w := Upper(query[k]);
    assert !IsToken(w) by {
      if |query[k]| > 0 {
        var j :| 0 <= j < |query[k]| && (IsSpace(query[k][j]) || query[k][j] == '-');
        UpperKeepsSeparators(query[k], j);
      }
    }
    assert Lookup(idx.words, w) == {};
  }
}
