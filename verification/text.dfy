/**
 * ASCII string primitives with the meaning Python 3 gives them on ASCII text:
 * `str.isspace`, `str.upper`, `str.split(sep)`, `str.split()`, `str.strip()`,
 * `str.replace` of one character, and the lexicographic `<` on strings.
 */
module Text {

  /** Python's whitespace on ASCII: space, \t \n \v \f \r and the separators \x1c-\x1f. */
  predicate IsSpace(c: char) {
    c == ' ' || 9 <= c as int <= 13 || 28 <= c as int <= 31
  }

  predicate AllSpace(s: string) {
    forall i :: 0 <= i < |s| ==> IsSpace(s[i])
  }

  predicate NoSpace(s: string) {
    forall i :: 0 <= i < |s| ==> !IsSpace(s[i])
  }

  predicate StartsWith(s: string, c: char) {
    |s| > 0 && s[0] == c
  }

  // ---------------------------------------------------------------------------
  // upper()

  function UpperChar(c: char): (u: char)
    ensures 'a' <= c <= 'z' ==> u as int == c as int - 32
    ensures !('a' <= c <= 'z') ==> u == c
  {
    if 'a' <= c <= 'z' then (c as int - 32) as char else c
  }

  /** `s.upper()` on ASCII text: lower-case letters are mapped, every other character is kept. */
  function Upper(s: string): (r: string)
    ensures |r| == |s|
    ensures forall i :: 0 <= i < |s| ==> r[i] == UpperChar(s[i])
  {
    if |s| == 0 then "" else [UpperChar(s[0])] + Upper(s[1..])
  }

  /** Upper-casing neither creates nor removes whitespace or hyphens. */
  lemma UpperKeepsSeparators(s: string, i: int)
    requires 0 <= i < |s|
    ensures IsSpace(Upper(s)[i]) <==> IsSpace(s[i])
    ensures Upper(s)[i] == '-' <==> s[i] == '-'
  {
  }

  // ---------------------------------------------------------------------------
  // replace(a, b) for single characters

  function ReplaceChar(s: string, target: char, replacement: char): (r: string)
    ensures |r| == |s|
    ensures forall i :: 0 <= i < |s| ==> r[i] == (if s[i] == target then replacement else s[i])
  {
    if |s| == 0 then "" else [if s[0] == target then replacement else s[0]] + ReplaceChar(s[1..], target, replacement)
  }

  lemma ReplaceCharAppend(a: string, b: string, target: char, replacement: char)
    ensures ReplaceChar(a + b, target, replacement) == ReplaceChar(a, target, replacement) + ReplaceChar(b, target, replacement)
  {
  }

  // ---------------------------------------------------------------------------
  // split(sep): keeps empty fields, always at least one field

  function SplitOn(s: string, sep: char): (parts: seq<string>)
    ensures |parts| >= 1
    ensures forall i :: 0 <= i < |parts| ==> sep !in parts[i]
  {
    if |s| == 0 then [""]
    else
      var rest := SplitOn(s[1..], sep);
      if s[0] == sep then [""] + rest
      else [[s[0]] + rest[0]] + rest[1..]
  }

  /** `sep.join(parts)`. */
  function Join(parts: seq<string>, sep: char): string
  {
    if |parts| == 0 then ""
    else if |parts| == 1 then parts[0]
    else parts[0] + [sep] + Join(parts[1..], sep)
  }

  /** Gluing a character onto the first field prepends it to the join. */
  lemma JoinGlue(c: char, rest: seq<string>, sep: char)
    requires |rest| >= 1
    ensures Join([[c] + rest[0]] + rest[1..], sep) == [c] + Join(rest, sep)
  {
    var parts := [[c] + rest[0]] + rest[1..];
    if |rest| > 1 {
      assert parts[1..] == rest[1..];
      assert Join(parts, sep) == ([c] + rest[0]) + [sep] + Join(rest[1..], sep);
      assert Join(rest, sep) == rest[0] + [sep] + Join(rest[1..], sep);
    }
  }

  /** A leading empty field puts a separator in front of the join. */
  lemma JoinEmptyFirst(rest: seq<string>, sep: char)
    requires |rest| >= 1
    ensures Join([""] + rest, sep) == [sep] + Join(rest, sep)
  {
    assert ([""] + rest)[1..] == rest;
  }

  /** Joining the fields of a split with the separator gives the text back. */
  lemma {:induction false} JoinSplitOn(s: string, sep: char)
    ensures Join(SplitOn(s, sep), sep) == s
  {
    if |s| > 0 {
      var rest := SplitOn(s[1..], sep);
      JoinSplitOn(s[1..], sep);
      assert s == [s[0]] + s[1..];
      if s[0] == sep {
        JoinEmptyFirst(rest, sep);
      } else {
        JoinGlue(s[0], rest, sep);
      }
    }
  }

  /** Splitting `a + r` where `a` holds no separator glues `a` onto the first field of `r`. */
  lemma {:induction false} SplitOnPrefix(a: string, r: string, sep: char)
    requires sep !in a
    ensures SplitOn(a + r, sep) == [a + SplitOn(r, sep)[0]] + SplitOn(r, sep)[1..]
  {
    if |a| > 0 {
      assert (a + r)[1..] == a[1..] + r;
      forall k | 0 <= k < |a[1..]| ensures a[1..][k] != sep {
        assert a[1..][k] == a[k + 1];
      }
      SplitOnPrefix(a[1..], r, sep);
      assert a[0] != sep by { assert a[0] in a; }
      assert [a[0]] + (a[1..] + SplitOn(r, sep)[0]) == a + SplitOn(r, sep)[0];
    } else {
      assert a + r == r;
      assert a + SplitOn(r, sep)[0] == SplitOn(r, sep)[0];
      assert SplitOn(r, sep) == [SplitOn(r, sep)[0]] + SplitOn(r, sep)[1..];
    }
  }

  /** Splitting a join of separator-free fields gives the fields back. */
  lemma {:induction false} SplitOnJoin(parts: seq<string>, sep: char)
    requires |parts| >= 1
    requires forall i :: 0 <= i < |parts| ==> sep !in parts[i]
    ensures SplitOn(Join(parts, sep), sep) == parts
  {
    if |parts| == 1 {
      SplitOnPrefix(parts[0], "", sep);
      assert parts[0] + "" == parts[0];
      assert SplitOn("", sep) == [""];
      assert [parts[0]] == parts;
    } else {
      var rest := parts[1..];
      SplitOnJoin(rest, sep);
      var tail := [sep] + Join(rest, sep);
      assert Join(parts, sep) == parts[0] + tail;
      SplitOnPrefix(parts[0], tail, sep);
      assert tail[1..] == Join(rest, sep);
      assert SplitOn(tail, sep) == [""] + rest;
      assert parts[0] + "" == parts[0];
      assert parts == [parts[0]] + rest;
    }
  }

  // ---------------------------------------------------------------------------
  // split() on whitespace

  /** Drops the leading whitespace (`lstrip()`). */
  function DropSpaces(s: string): (r: string)
    ensures |r| <= |s| && r == s[|s| - |r|..]
    ensures AllSpace(s[..|s| - |r|])
    ensures |r| > 0 ==> !IsSpace(r[0])
  {
    if |s| > 0 && IsSpace(s[0]) then DropSpaces(s[1..]) else s
  }

  /** The longest whitespace-free prefix of `s`. */
  function TakeWord(s: string): (w: string)
    ensures |w| <= |s| && w == s[..|w|]
    ensures NoSpace(w)
    ensures |w| < |s| ==> IsSpace(s[|w|])
  {
    if |s| == 0 || IsSpace(s[0]) then "" else [s[0]] + TakeWord(s[1..])
  }

  /** `s.split()`: the maximal runs of non-whitespace characters, in order. */
  function Words(s: string): (ws: seq<string>)
    ensures forall i :: 0 <= i < |ws| ==> |ws[i]| > 0 && NoSpace(ws[i])
    decreases |s|
  {
    var t := DropSpaces(s);
    if |t| == 0 then []
    else
      var w := TakeWord(t);
      assert !IsSpace(t[0]);
      assert |w| > 0;
      var rest := Words(t[|w|..]);
      NonEmptyWordsCons(w, rest);
      [w] + rest
  }

  lemma NonEmptyWordsCons(w: string, ws: seq<string>)
    requires |w| > 0 && NoSpace(w)
    requires forall i :: 0 <= i < |ws| ==> |ws[i]| > 0 && NoSpace(ws[i])
    ensures forall i :: 0 <= i < |[w] + ws| ==> |([w] + ws)[i]| > 0 && NoSpace(([w] + ws)[i])
  {
  }

  /** A character absent from `s` is absent from every word of `s.split()`. */
  lemma {:induction false} WordsAvoid(s: string, c: char)
    requires c !in s
    ensures forall i :: 0 <= i < |Words(s)| ==> c !in Words(s)[i]
    decreases |s|
  {
    var t := DropSpaces(s);
    if |t| > 0 {
      var w := TakeWord(t);
      var rest := t[|w|..];
      forall j | 0 <= j < |t| ensures t[j] != c {
        assert t[j] == s[|s| - |t| + j];
      }
      forall j | 0 <= j < |w| ensures w[j] != c {
        assert w[j] == t[j];
      }
      forall j | 0 <= j < |rest| ensures rest[j] != c {
        assert rest[j] == t[|w| + j];
      }
      WordsAvoid(rest, c);
      assert Words(s) == [w] + Words(rest);
    }
  }

  /** The characters of `s` that are not whitespace, in order. */
  function RemoveSpaces(s: string): string
  {
    if |s| == 0 then "" else (if IsSpace(s[0]) then "" else [s[0]]) + RemoveSpaces(s[1..])
  }

  function Concat(ws: seq<string>): string
  {
    if |ws| == 0 then "" else ws[0] + Concat(ws[1..])
  }

  lemma {:induction false} RemoveSpacesAppend(a: string, b: string)
    ensures RemoveSpaces(a + b) == RemoveSpaces(a) + RemoveSpaces(b)
  {
    if |a| == 0 {
      assert a + b == b;
    } else {
      assert (a + b)[1..] == a[1..] + b;
      RemoveSpacesAppend(a[1..], b);
    }
  }

  lemma {:induction false} RemoveSpacesOfAllSpace(s: string)
    requires AllSpace(s)
    ensures RemoveSpaces(s) == ""
  {
    if |s| > 0 {
      RemoveSpacesOfAllSpace(s[1..]);
    }
  }

  lemma {:induction false} RemoveSpacesOfNoSpace(s: string)
    requires NoSpace(s)
    ensures RemoveSpaces(s) == s
  {
    if |s| > 0 {
      RemoveSpacesOfNoSpace(s[1..]);
      assert s == [s[0]] + s[1..];
    }
  }

  lemma RemoveSpacesDropsLead(s: string)
    ensures RemoveSpaces(s) == RemoveSpaces(DropSpaces(s))
  {
    var t := DropSpaces(s);
    var lead := s[..|s| - |t|];
    assert s == lead + t;
    RemoveSpacesAppend(lead, t);
    RemoveSpacesOfAllSpace(lead);
  }

  lemma RemoveSpacesOfLeadingWord(w: string, rest: string)
    requires NoSpace(w)
    ensures RemoveSpaces(w + rest) == w + RemoveSpaces(rest)
  {
    RemoveSpacesAppend(w, rest);
    RemoveSpacesOfNoSpace(w);
  }

  lemma ConcatCons(w: string, ws: seq<string>)
    ensures Concat([w] + ws) == w + Concat(ws)
  {
    assert ([w] + ws)[1..] == ws;
  }

  lemma WordsDropsLead(s: string)
    ensures Words(s) == Words(DropSpaces(s))
  {
    var t := DropSpaces(s);
    assert s == s[..|s| - |t|] + t;
    WordsAfterSpaces(s[..|s| - |t|], t);
  }

  /** The words of `s.split()` put back together are exactly the non-whitespace text of `s`. */
  lemma {:induction false} WordsCoverText(s: string)
    ensures Concat(Words(s)) == RemoveSpaces(s)
    decreases |s|
  {
    var t := DropSpaces(s);
    RemoveSpacesDropsLead(s);
    WordsDropsLead(s);
    if |t| > 0 {
      var w := TakeWord(t);
      var rest := t[|w|..];
      TakeWordSplits(t);
      WordsOfLeadingWord(w, rest);
      RemoveSpacesOfLeadingWord(w, rest);
      WordsCoverText(rest);
      ConcatCons(w, Words(rest));
    }
  }

  lemma {:induction false} DropSpacesOfSpacedPrefix(a: string, b: string)
    requires AllSpace(a)
    ensures DropSpaces(a + b) == DropSpaces(b)
  {
    if |a| > 0 {
      assert (a + b)[0] == a[0];
      assert (a + b)[1..] == a[1..] + b;
      DropSpacesOfSpacedPrefix(a[1..], b);
    } else {
      assert a + b == b;
    }
  }

  lemma {:induction false} TakeWordOfSeparated(a: string, b: string)
    requires NoSpace(a)
    requires |b| > 0 && IsSpace(b[0])
    ensures TakeWord(a + b) == a
  {
    if |a| > 0 {
      assert (a + b)[0] == a[0];
      assert (a + b)[1..] == a[1..] + b;
      TakeWordOfSeparated(a[1..], b);
      assert a == [a[0]] + a[1..];
    } else {
      assert a + b == b;
    }
  }

  /** Leading whitespace does not change `split()`. */
  lemma WordsAfterSpaces(a: string, b: string)
    requires AllSpace(a)
    ensures Words(a + b) == Words(b)
  {
    DropSpacesOfSpacedPrefix(a, b);
  }

  /** A whitespace-free run followed by whitespace (or by nothing) is the first word. */
  lemma WordsOfLeadingWord(w: string, b: string)
    requires |w| > 0 && NoSpace(w)
    requires |b| == 0 || IsSpace(b[0])
    ensures Words(w + b) == [w] + Words(b)
  {
    var s := w + b;
    assert s[0] == w[0];
    assert DropSpaces(s) == s;
    if |b| == 0 {
      assert s == w;
      assert TakeWord(w) == w;
      assert w[|w|..] == b;
    } else {
      TakeWordOfSeparated(w, b);
      assert s[|w|..] == b;
    }
  }

  lemma SeqCons<T>(xs: seq<T>)
    requires |xs| > 0
    ensures [xs[0]] + xs[1..] == xs
  {
  }

  lemma WordsOfWordThenText(w: string, rest: string)
    requires |w| > 0 && NoSpace(w)
    ensures Words(w + ([' '] + rest)) == [w] + Words(rest)
  {
    WordsOfLeadingWord(w, [' '] + rest);
    WordsAfterSpaces([' '], rest);
  }

  lemma WordsOfJoinStep(ws: seq<string>)
    requires |ws| > 1
    requires |ws[0]| > 0 && NoSpace(ws[0])
    requires Words(Join(ws[1..], ' ')) == ws[1..]
    ensures Words(Join(ws, ' ')) == [ws[0]] + ws[1..]
  {
    var rest := Join(ws[1..], ' ');
    assert Join(ws, ' ') == ws[0] + ([' '] + rest);
    WordsOfWordThenText(ws[0], rest);
  }

  lemma WordsOfSingleWord(w: string)
    requires |w| > 0 && NoSpace(w)
    ensures Words(w) == [w]
  {
    WordsOfLeadingWord(w, "");
    assert w + "" == w;
    assert Words("") == [];
  }

  /** Splitting words joined by single spaces gives the words back. */
  lemma {:induction false} WordsOfJoin(ws: seq<string>)
    requires forall i :: 0 <= i < |ws| ==> |ws[i]| > 0 && NoSpace(ws[i])
    ensures Words(Join(ws, ' ')) == ws
  {
    if |ws| == 1 {
      WordsOfSingleWord(ws[0]);
    } else if |ws| > 1 {
      WordsOfJoin(ws[1..]);
      WordsOfJoinStep(ws);
      SeqCons(ws);
    }
  }

  /** Leading whitespace of `a` does not matter to `split()`, alone or followed by more text. */
  lemma WordsOfSpacedLead(a: string, b: string)
    ensures Words(a + [' '] + b) == Words(DropSpaces(a) + [' '] + b)
    ensures Words(a) == Words(DropSpaces(a))
  {
    var t := DropSpaces(a);
    var lead := a[..|a| - |t|];
    assert a == lead + t;
    assert a + [' '] + b == lead + (t + [' '] + b);
    WordsAfterSpaces(lead, t + [' '] + b);
    WordsAfterSpaces(lead, t);
  }

  lemma WordsOfSpacedBlank(b: string)
    ensures Words([' '] + b) == Words(b)
    ensures Words("") == []
  {
    WordsAfterSpaces([' '], b);
  }

  lemma WordsOfSpacedWord(w: string, rest: string, b: string)
    requires |w| > 0 && NoSpace(w)
    requires |rest| == 0 || IsSpace(rest[0])
    requires Words(rest + [' '] + b) == Words(rest) + Words(b)
    ensures Words(w + rest + [' '] + b) == Words(w + rest) + Words(b)
  {
    var u := rest + [' '] + b;
    assert |u| > 0 && IsSpace(u[0]);
    SeqAppendAssoc(w, rest + [' '], b);
    SeqAppendAssoc(w, rest, [' ']);
    assert w + rest + [' '] + b == w + u;
    WordsOfLeadingWord(w, u);
    WordsOfLeadingWord(w, rest);
    SeqAppendAssoc([w], Words(rest), Words(b));
  }

  lemma TakeWordSplits(t: string)
    ensures t == TakeWord(t) + t[|TakeWord(t)|..]
  {
  }

  lemma WordsOfSpacedStep(t: string, b: string)
    requires |t| > 0 && !IsSpace(t[0])
    requires Words(t[|TakeWord(t)|..] + [' '] + b) == Words(t[|TakeWord(t)|..]) + Words(b)
    ensures Words(t + [' '] + b) == Words(t) + Words(b)
  {
    TakeWordSplits(t);
    WordsOfSpacedWord(TakeWord(t), t[|TakeWord(t)|..], b);
  }

  lemma SeqAppendAssoc<T>(x: seq<T>, y: seq<T>, z: seq<T>)
    ensures x + (y + z) == (x + y) + z
  {
  }

  /** Splitting `a + " " + b` on whitespace splits `a` and `b` separately. */
  lemma {:induction false} WordsOfSpaced(a: string, b: string)
    ensures Words(a + [' '] + b) == Words(a) + Words(b)
    decreases |a|
  {
    var t := DropSpaces(a);
    WordsOfSpacedLead(a, b);
    if |t| == 0 {
      WordsOfSpacedBlank(b);
      assert t + [' '] + b == [' '] + b;
    } else {
      var rest := t[|TakeWord(t)|..];
      WordsOfSpaced(rest, b);
      WordsOfSpacedStep(t, b);
    }
  }

  // ---------------------------------------------------------------------------
  // strip()

  /** Drops the trailing whitespace (`rstrip()`). */
  function TrimEnd(s: string): (r: string)
    ensures |r| <= |s| && r == s[..|r|]
    ensures AllSpace(s[|r|..])
    ensures |r| > 0 ==> !IsSpace(r[|r| - 1])
  {
    if |s| > 0 && IsSpace(s[|s| - 1]) then
      var r := TrimEnd(s[..|s| - 1]);
      assert s[|r|..] == s[..|s| - 1][|r|..] + [s[|s| - 1]];
      r
    else s
  }

  /** `s.strip()`: the part of `s` between its leading and its trailing whitespace. */
  function Strip(s: string): (r: string)
    ensures |r| <= |s|
    ensures exists a :: Surrounded(s, r, a)
    ensures |r| > 0 ==> !IsSpace(r[0]) && !IsSpace(r[|r| - 1])
    ensures |r| == 0 <==> AllSpace(s)
  {
    var d := DropSpaces(s);
    var r := TrimEnd(d);
    var a := |s| - |d|;
    StripSlice(s, d, r, a);
    StripEmpty(s, d, r, a);
    assert |r| > 0 ==> r[0] == d[0];
    assert Surrounded(s, r, a);
    r
  }

  /** `r` sits at offset `a` of `s` with only whitespace before and after it. */
  predicate Surrounded(s: string, r: string, a: int) {
    0 <= a <= |s| - |r| && r == s[a..a + |r|] && AllSpace(s[..a]) && AllSpace(s[a + |r|..])
  }

  /** A prefix `r` of a suffix `d` of `s` is a slice of `s`, and what follows it in `d` is what follows it in `s`. */
  lemma StripSlice(s: string, d: string, r: string, a: nat)
    requires |r| <= |d| && a == |s| - |d| && d == s[a..] && r == d[..|r|]
    requires AllSpace(d[|r|..])
    ensures r == s[a..a + |r|]
    ensures AllSpace(s[a + |r|..])
  {
    assert s[a + |r|..] == d[|r|..];
  }

  lemma StripEmpty(s: string, d: string, r: string, a: nat)
    requires |r| <= |d| && a == |s| - |d| && d == s[a..] && r == d[..|r|]
    requires AllSpace(s[..a]) && AllSpace(d[|r|..]) && (|d| > 0 ==> !IsSpace(d[0]))
    ensures |r| == 0 <==> AllSpace(s)
  {
    if |r| == 0 {
      assert d[|r|..] == d;
      assert |d| == 0;
      assert s[..a] == s;
    } else {
      assert s[a] == d[0];
    }
  }

  /** Stripping is idempotent. */
  lemma StripIdempotent(s: string)
    ensures Strip(Strip(s)) == Strip(s)
  {
    var r := Strip(s);
    assert DropSpaces(r) == r;
    assert TrimEnd(r) == r;
  }

  // ---------------------------------------------------------------------------
  // Python's `<` on str: code-point lexicographic order, a proper prefix is smaller

  predicate StrLess(a: string, b: string)
  {
    if |a| == 0 then |b| > 0
    else |b| > 0 && (a[0] < b[0] || (a[0] == b[0] && StrLess(a[1..], b[1..])))
  }

  lemma {:induction false} StrLessIrreflexive(a: string)
    ensures !StrLess(a, a)
  {
    if |a| > 0 {
      StrLessIrreflexive(a[1..]);
    }
  }

  lemma {:induction false} StrLessTransitive(a: string, b: string, c: string)
    requires StrLess(a, b) && StrLess(b, c)
    ensures StrLess(a, c)
  {
    if |a| > 0 && a[0] == b[0] && b[0] == c[0] {
      StrLessTransitive(a[1..], b[1..], c[1..]);
    }
  }

  lemma {:induction false} StrLessTotal(a: string, b: string)
    requires a != b
    ensures StrLess(a, b) || StrLess(b, a)
  {
    if |a| > 0 && |b| > 0 && a[0] == b[0] {
      assert a == [a[0]] + a[1..];
      assert b == [b[0]] + b[1..];
      StrLessTotal(a[1..], b[1..]);
    }
  }

  lemma {:induction false} StrLessAsymmetric(a: string, b: string)
    requires StrLess(a, b)
    ensures !StrLess(b, a)
  {
    if |a| > 0 && a[0] == b[0] {
      StrLessAsymmetric(a[1..], b[1..]);
    }
  }
}
