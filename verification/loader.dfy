/**
 * api/loader.py `build_indexes`: a capped index of raw records. Codes stay
 * undecoded hex strings, names are split on whitespace and then on hyphens
 * (so parts may be empty), and the loop stops once 101 codes are held.
 */
module Loader {
  import opened Text
  import opened Results
  import opened Ucd

  /** The loop stops after the line that makes the code index exceed this size. */
  const Cap: nat := 100

  /** `code_idx` (hex text to name) and `name_idx` (name part to hex texts). */
  datatype NameIndexes = NameIndexes(codes: map<string, string>, names: map<string, set<string>>)

  const Empty := NameIndexes(map[], map[])

  /** The hyphen-separated parts of each of the words, pooled. */
  function PartsOfWords(words: seq<string>): (r: set<string>)
    ensures forall p :: p in r <==> exists k :: 0 <= k < |words| && p in SplitOn(words[k], '-')
  {
    if |words| == 0 then {}
    else
      var rest := PartsOfWords(words[1..]);
      assert forall k :: 1 <= k < |words| ==> words[k] == words[1..][k - 1];
      (set p | p in SplitOn(words[0], '-')) + rest
  }

  /** The index parts of a name: every hyphen-separated part of every whitespace word. */
  function Parts(name: string): set<string>
  {
    PartsOfWords(Words(name))
  }

  /** A part comes from some word of the name, and holds no hyphen. */
  lemma PartsSpec(name: string)
    ensures forall p :: p in Parts(name) <==> exists k :: 0 <= k < |Words(name)| && p in SplitOn(Words(name)[k], '-')
    ensures forall p :: p in Parts(name) ==> '-' !in p
  {
    var ws := Words(name);
    forall p | p in Parts(name) ensures '-' !in p {
      var k :| 0 <= k < |ws| && p in SplitOn(ws[k], '-');
    }
  }

  /** A name with a word that starts with a hyphen has the empty string among its parts. */
  lemma LeadingHyphenGivesEmptyPart(name: string, k: nat)
    requires k < |Words(name)| && |Words(name)[k]| > 0 && Words(name)[k][0] == '-'
    ensures "" in Parts(name)
  {
    var w := Words(name)[k];
    assert w == ['-'] + w[1..];
    assert SplitOn(w, '-') == [""] + SplitOn(w[1..], '-');
    PartsSpec(name);
  }

  /** The record has the two fields `code, name, *rest = ...` unpacks. */
  predicate Unpacks(line: string) {
    |Fields(line)| >= 2
  }

  function Code(line: string): string
    requires Unpacks(line)
  {
    Fields(line)[0]
  }

  function Name(line: string): string
    requires Unpacks(line)
  {
    Fields(line)[1]
  }

  /** Lines whose name contains `<` anywhere are ignored. */
  predicate Kept(line: string)
    requires Unpacks(line)
  {
    '<' !in Name(line)
  }

  function LookupCodes(names: map<string, set<string>>, part: string): set<string> {
    if part in names then names[part] else {}
  }

  /** One iteration of the loop body, without the cap test. */
  function Step(idx: NameIndexes, line: string): (r: Result<NameIndexes, ParseError>)
    ensures !Unpacks(line) <==> r.Err?
    ensures !Unpacks(line) ==> r == Err(TooFewToUnpack(|Fields(line)|))
    ensures Unpacks(line) && !Kept(line) ==> r == Ok(idx)
  {
    if !Unpacks(line) then Err(TooFewToUnpack(|Fields(line)|))
    else if !Kept(line) then Ok(idx)
    else Ok(AddLine(idx, Code(line), Name(line)))
  }

  /** Files `code` under every one of `parts`. */
  function FileUnder(names: map<string, set<string>>, code: string, parts: set<string>): map<string, set<string>>
  {
    map p | p in names.Keys + parts :: LookupCodes(names, p) + (if p in parts then {code} else {})
  }

  /** The body of the loop for a kept line: `code_idx[code] = name` and every part of the name gains `code`. */
  function AddLine(idx: NameIndexes, code: string, name: string): NameIndexes
  {
    NameIndexes(idx.codes[code := name], FileUnder(idx.names, code, Parts(name)))
  }

  /** Filing `code` under `parts` adds exactly those pairs. */
  lemma FileUnderSpec(names: map<string, set<string>>, code: string, parts: set<string>, p: string, c: string)
    ensures var m := FileUnder(names, code, parts);
      (p in m && c in m[p]) <==> (p in names && c in names[p]) || (c == code && p in parts)
  {
    var m := FileUnder(names, code, parts);
    if p in names || p in parts {
      assert p in m;
      assert m[p] == LookupCodes(names, p) + (if p in parts then {code} else {});
    }
  }

  /** After a kept line, `c` is filed under `p` exactly when it was before or `c` is the line's code and `p` a part of its name. */
  lemma AddLineNames(idx: NameIndexes, code: string, name: string, p: string, c: string)
    ensures InNames(AddLine(idx, code, name), p, c) <==> InNames(idx, p, c) || (c == code && p in Parts(name))
  {
    FileUnderSpec(idx.names, code, Parts(name), p, c);
  }

  /** The loop without the cap: every line is examined. */
  function Uncapped(lines: seq<string>): Result<NameIndexes, ParseError>
  {
    if |lines| == 0 then Ok(Empty)
    else
      var prev :- Uncapped(lines[..|lines| - 1]);
      Step(prev, lines[|lines| - 1])
  }

  /** The index has reached the size at which the loop breaks. */
  predicate Full(idx: NameIndexes) {
    |idx.codes| > Cap
  }

  /** `build_indexes`: the loop with the cap; lines after the break are never examined. */
  function BuildIndexes(lines: seq<string>): Result<NameIndexes, ParseError>
  {
    if |lines| == 0 then Ok(Empty)
    else
      var prev :- BuildIndexes(lines[..|lines| - 1]);
      if Full(prev) then Ok(prev) else Step(prev, lines[|lines| - 1])
  }

  // ---------------------------------------------------------------------------
  // the cap

  lemma StepGrowsByAtMostOne(idx: NameIndexes, line: string)
    requires Step(idx, line).Ok?
    ensures |Step(idx, line).value.codes| <= |idx.codes| + 1
  {
    if Unpacks(line) && Kept(line) {
      var m := Step(idx, line).value.codes;
      assert m.Keys == idx.codes.Keys + {Code(line)};
    }
  }

  /** The code index never holds more than 101 entries. */
  lemma {:induction false} CodesBounded(lines: seq<string>)
    requires BuildIndexes(lines).Ok?
    ensures |BuildIndexes(lines).value.codes| <= Cap + 1
  {
    if |lines| > 0 {
      var pre := lines[..|lines| - 1];
      CodesBounded(pre);
      var prev := BuildIndexes(pre).value;
      if !Full(prev) {
        StepGrowsByAtMostOne(prev, lines[|lines| - 1]);
      }
    }
  }

  /** Once full, appending any lines (even malformed ones) changes nothing. */
  lemma {:induction false} CapStops(a: seq<string>, b: seq<string>)
    requires BuildIndexes(a).Ok? && Full(BuildIndexes(a).value)
    ensures BuildIndexes(a + b) == BuildIndexes(a)
  {
    if |b| == 0 {
      assert a + b == a;
    } else {
      var pre := b[..|b| - 1];
      CapStops(a, pre);
      assert (a + b)[..|a + b| - 1] == a + pre;
    }
  }

  /** One more line: a full index ignores it, otherwise the capped and uncapped loops take the same step. */
  lemma CapStep(lines: seq<string>)
    requires |lines| > 0
    requires BuildIndexes(lines[..|lines| - 1]) == Uncapped(lines[..|lines| - 1])
    ensures var prev := BuildIndexes(lines[..|lines| - 1]);
      if prev.Ok? && Full(prev.value) then BuildIndexes(lines) == prev else BuildIndexes(lines) == Uncapped(lines)
  {
  }

  /**
   * The capped loop is the uncapped loop over the lines it examined: some
   * prefix, which is all of them unless the index became full.
   */
  lemma {:induction false} CappedIsPrefix(lines: seq<string>)
    ensures exists n :: (0 <= n <= |lines| && BuildIndexes(lines) == Uncapped(lines[..n])
      && (n < |lines| ==> BuildIndexes(lines).Ok? && Full(BuildIndexes(lines).value)))
  {
    if |lines| == 0 {
      assert lines[..0] == lines;
    } else {
      var pre := lines[..|lines| - 1];
      CappedIsPrefix(pre);
      var n :| 0 <= n <= |pre| && BuildIndexes(pre) == Uncapped(pre[..n])
        && (n < |pre| ==> BuildIndexes(pre).Ok? && Full(BuildIndexes(pre).value));
      assert pre[..n] == lines[..n];
      var prev := BuildIndexes(pre);
      if prev.Ok? && Full(prev.value) {
        assert BuildIndexes(lines) == prev;
        assert n < |lines|;
      } else {
        assert pre[..n] == pre;
        CapStep(lines);
        assert lines[..|lines|] == lines;
      }
    }
  }

  // ---------------------------------------------------------------------------
  // the uncapped loop, line by line

  /** Line `i` unpacks and is kept. */
  predicate KeptAt(lines: seq<string>, i: int) {
    0 <= i < |lines| && Unpacks(lines[i]) && Kept(lines[i])
  }

  /** No later kept line has the same code. */
  predicate LastCode(lines: seq<string>, i: nat)
    requires KeptAt(lines, i)
  {
    forall j :: i < j < |lines| && KeptAt(lines, j) ==> Code(lines[j]) != Code(lines[i])
  }

  /** Line `i` is kept, has code `c` and has `p` among the parts of its name. */
  predicate PartAt(lines: seq<string>, i: int, p: string, c: string) {
    KeptAt(lines, i) && Code(lines[i]) == c && p in Parts(Name(lines[i]))
  }

  /** Some kept line with code `c` has `p` among its parts. */
  predicate PartOf(lines: seq<string>, p: string, c: string) {
    exists i :: 0 <= i < |lines| && PartAt(lines, i, p, c)
  }

  /** Line `i` is kept and has code `c`. */
  predicate CodeAt(lines: seq<string>, i: int, c: string) {
    KeptAt(lines, i) && Code(lines[i]) == c
  }

  predicate HasCode(lines: seq<string>, c: string) {
    exists i :: 0 <= i < |lines| && CodeAt(lines, i, c)
  }

  predicate InNames(idx: NameIndexes, p: string, c: string) {
    p in idx.names && c in idx.names[p]
  }

  lemma KeptAtPrefix(lines: seq<string>, i: int)
    requires |lines| > 0 && 0 <= i < |lines| - 1
    ensures KeptAt(lines, i) <==> KeptAt(lines[..|lines| - 1], i)
    ensures lines[..|lines| - 1][i] == lines[i]
  {
  }

  /** Dropping the last line does not change what the earlier lines say. */
  lemma AtPrefix(lines: seq<string>, i: int, p: string, c: string)
    requires |lines| > 0 && 0 <= i < |lines| - 1
    ensures PartAt(lines, i, p, c) <==> PartAt(lines[..|lines| - 1], i, p, c)
    ensures CodeAt(lines, i, c) <==> CodeAt(lines[..|lines| - 1], i, c)
  {
    KeptAtPrefix(lines, i);
  }

  lemma PartOfStep(lines: seq<string>, p: string, c: string)
    requires |lines| > 0
    ensures PartOf(lines, p, c) <==> (PartOf(lines[..|lines| - 1], p, c) || PartAt(lines, |lines| - 1, p, c))
  {
    var pre := lines[..|lines| - 1];
    if PartOf(lines, p, c) {
      var i :| 0 <= i < |lines| && PartAt(lines, i, p, c);
      if i < |lines| - 1 {
        AtPrefix(lines, i, p, c);
        assert 0 <= i < |pre| && PartAt(pre, i, p, c);
      }
    }
    if PartOf(pre, p, c) {
      var i :| 0 <= i < |pre| && PartAt(pre, i, p, c);
      AtPrefix(lines, i, p, c);
      assert 0 <= i < |lines| && PartAt(lines, i, p, c);
    }
    if PartAt(lines, |lines| - 1, p, c) {
      assert 0 <= |lines| - 1 < |lines|;
    }
  }

  lemma HasCodeStep(lines: seq<string>, c: string)
    requires |lines| > 0
    ensures HasCode(lines, c) <==> (HasCode(lines[..|lines| - 1], c) || CodeAt(lines, |lines| - 1, c))
  {
    var pre := lines[..|lines| - 1];
    if HasCode(lines, c) {
      var i :| 0 <= i < |lines| && CodeAt(lines, i, c);
      if i < |lines| - 1 {
        AtPrefix(lines, i, "", c);
      }
    }
    if HasCode(pre, c) {
      var i :| 0 <= i < |pre| && CodeAt(pre, i, c);
      AtPrefix(lines, i, "", c);
    }
  }

  lemma StepNames(idx: NameIndexes, line: string, p: string, c: string)
    requires Step(idx, line).Ok?
    ensures InNames(Step(idx, line).value, p, c) <==>
      InNames(idx, p, c) || (Kept(line) && Code(line) == c && p in Parts(Name(line)))
  {
    if Kept(line) {
      AddLineNames(idx, Code(line), Name(line), p, c);
    }
  }

  /** The uncapped loop gets past the last line exactly when it got past the others and the last line unpacks. */
  lemma UncappedLast(lines: seq<string>)
    requires |lines| > 0
    ensures Uncapped(lines).Ok? <==> Uncapped(lines[..|lines| - 1]).Ok? && Unpacks(lines[|lines| - 1])
  {
  }

  /** Every line has the two fields the unpacking needs. */
  predicate AllUnpack(lines: seq<string>) {
    forall i :: 0 <= i < |lines| ==> Unpacks(lines[i])
  }

  lemma AllUnpackLast(lines: seq<string>)
    requires |lines| > 0
    ensures AllUnpack(lines) <==> AllUnpack(lines[..|lines| - 1]) && Unpacks(lines[|lines| - 1])
  {
    var pre := lines[..|lines| - 1];
    assert forall i :: 0 <= i < |pre| ==> pre[i] == lines[i];
  }

  /** The uncapped loop fails exactly when some line has fewer than two fields. */
  lemma {:induction false} UncappedFails(lines: seq<string>)
    ensures Uncapped(lines).Ok? <==> AllUnpack(lines)
  {
    if |lines| > 0 {
      UncappedFails(lines[..|lines| - 1]);
      UncappedLast(lines);
      AllUnpackLast(lines);
    }
  }

  /** The uncapped loop after its last line is the step on that line from the loop before it. */
  lemma UncappedStep(lines: seq<string>)
    requires |lines| > 0 && Uncapped(lines).Ok?
    ensures Uncapped(lines[..|lines| - 1]).Ok?
    ensures Step(Uncapped(lines[..|lines| - 1]).value, lines[|lines| - 1]) == Uncapped(lines)
  {
  }

  lemma {:induction false} UncappedNames(lines: seq<string>)
    requires Uncapped(lines).Ok?
    ensures forall p, c :: InNames(Uncapped(lines).value, p, c) <==> PartOf(lines, p, c)
  {
    if |lines| > 0 {
      var pre := lines[..|lines| - 1];
      UncappedStep(lines);
      UncappedNames(pre);
      forall p, c ensures InNames(Uncapped(lines).value, p, c) <==> PartOf(lines, p, c) {
        StepNames(Uncapped(pre).value, lines[|lines| - 1], p, c);
        PartOfStep(lines, p, c);
      }
    }
  }

  lemma {:induction false} UncappedCodes(lines: seq<string>)
    requires Uncapped(lines).Ok?
    ensures forall c :: c in Uncapped(lines).value.codes <==> HasCode(lines, c)
  {
    if |lines| > 0 {
      var pre := lines[..|lines| - 1];
      UncappedStep(lines);
      UncappedCodes(pre);
      forall c ensures c in Uncapped(lines).value.codes <==> HasCode(lines, c) {
        HasCodeStep(lines, c);
      }
    }
  }

  /** A line that is last for its code is still last once the final line is dropped. */
  lemma LastCodePrefix(lines: seq<string>, i: nat)
    requires i < |lines| - 1 && KeptAt(lines, i) && LastCode(lines, i)
    ensures KeptAt(lines[..|lines| - 1], i) && LastCode(lines[..|lines| - 1], i)
  {
    var pre := lines[..|lines| - 1];
    KeptAtPrefix(lines, i);
    forall j | i < j < |pre| && KeptAt(pre, j) ensures Code(pre[j]) != Code(pre[i]) {
      KeptAtPrefix(lines, j);
    }
  }

  lemma {:induction false} UncappedLastNames(lines: seq<string>)
    requires Uncapped(lines).Ok?
    ensures forall i :: KeptAt(lines, i) && LastCode(lines, i) ==>
      Code(lines[i]) in Uncapped(lines).value.codes && Uncapped(lines).value.codes[Code(lines[i])] == Name(lines[i])
  {
    if |lines| > 0 {
      var pre := lines[..|lines| - 1];
      UncappedStep(lines);
      UncappedLastNames(pre);
      var idx := Uncapped(lines).value;
      forall i | KeptAt(lines, i) && LastCode(lines, i)
        ensures Code(lines[i]) in idx.codes && idx.codes[Code(lines[i])] == Name(lines[i])
      {
        if i < |lines| - 1 {
          LastCodePrefix(lines, i);
          KeptAtPrefix(lines, i);
        }
      }
    }
  }

  /**
   * After the uncapped loop, `c` is filed under `p` exactly when some kept
   * line for `c` has the part `p`; the code index holds exactly the kept
   * codes, each with the name of its last kept line.
   */
  lemma UncappedSpec(lines: seq<string>)
    requires Uncapped(lines).Ok?
    ensures forall p, c :: InNames(Uncapped(lines).value, p, c) <==> PartOf(lines, p, c)
    ensures forall c :: c in Uncapped(lines).value.codes <==> HasCode(lines, c)
    ensures forall i :: KeptAt(lines, i) && LastCode(lines, i) ==>
      Code(lines[i]) in Uncapped(lines).value.codes && Uncapped(lines).value.codes[Code(lines[i])] == Name(lines[i])
  {
    UncappedNames(lines);
    UncappedCodes(lines);
    UncappedLastNames(lines);
  }

  /** Every code filed under any name part is a key of the code index. */
  predicate Consistent(idx: NameIndexes) {
    forall p, c :: p in idx.names && c in idx.names[p] ==> c in idx.codes
  }

  /**
   * The capped result: it fails only on a line that does not unpack, its code
   * index stays within 101 entries, every filed code has a name, and it is the
   * uncapped result of the lines up to the break.
   */
  lemma BuildIndexesSpec(lines: seq<string>)
    ensures BuildIndexes(lines).Err? ==> exists i :: 0 <= i < |lines| && !Unpacks(lines[i])
    ensures BuildIndexes(lines).Ok? ==> |BuildIndexes(lines).value.codes| <= Cap + 1 && Consistent(BuildIndexes(lines).value)
    ensures exists n :: (0 <= n <= |lines| && BuildIndexes(lines) == Uncapped(lines[..n])
      && (n < |lines| ==> BuildIndexes(lines).Ok? && Full(BuildIndexes(lines).value)))
  {
    CappedIsPrefix(lines);
    var n :| 0 <= n <= |lines| && BuildIndexes(lines) == Uncapped(lines[..n])
      && (n < |lines| ==> BuildIndexes(lines).Ok? && Full(BuildIndexes(lines).value));
    var pre := lines[..n];
    UncappedFails(pre);
    if BuildIndexes(lines).Err? {
      var i :| 0 <= i < |pre| && !Unpacks(pre[i]);
      assert lines[i] == pre[i];
    } else {
      CodesBounded(lines);
      UncappedSpec(pre);
      var idx := BuildIndexes(lines).value;
      forall p, c | p in idx.names && c in idx.names[p] ensures c in idx.codes {
        assert InNames(idx, p, c);
        var i :| 0 <= i < |pre| && PartAt(pre, i, p, c);
        assert CodeAt(pre, i, c);
      }
    }
  }
}
