/**
 * The UnicodeData.txt record format shared by every script: `;`-separated
 * fields, field 0 the code point in hex, field 1 the Name, field 10 the
 * Unicode 1.0 name; a Name written `<...>` marks a control or range entry.
 */
module Ucd {
  import opened Text
  import opened Hex
  import opened Results

  /** `chr` accepts code points below this bound. */
  const CodePointLimit: nat := 0x110000

  /** Index of the Unicode 1.0 name ("old name") field. */
  const OldNameField: nat := 10

  /** The exceptions a record parser raises, by cause. */
  datatype ParseError =
    | BadHex(text: string)               // `int(field, 16)` raises ValueError
    | CodePointTooLarge(value: nat)      // `chr(value)` raises ValueError
    | MissingField(index: nat)           // `parts[index]` raises IndexError
    | TooFewToUnpack(count: nat)         // `code, name, *rest = ...` raises ValueError

  /** A parsed record: the code point, the text shown for it, and the words it is found by. */
  datatype Entry = Entry(cp: nat, display: string, tokens: set<string>)

  /** One search result: the character (by code point) and the text shown for it. */
  datatype Hit = Hit(cp: nat, display: string)

  function HitOf(e: Entry): Hit {
    Hit(e.cp, e.display)
  }

  function HitCodes(hits: seq<Hit>): set<nat> {
    set h | h in hits :: h.cp
  }

  function Fields(line: string): (parts: seq<string>)
    ensures |parts| >= 1
  {
    SplitOn(line, ';')
  }

  /** Control characters and ranges: the Name is written in angle brackets. */
  predicate IsPlaceholder(name: string) {
    StartsWith(name, '<')
  }

  /** `chr(int(text, 16))`, for plain hex digits only. */
  function DecodeCodePoint(text: string): (r: Result<nat, ParseError>)
    ensures r.Ok? ==> IsHexText(text) && r.value == HexValue(text) && r.value < CodePointLimit
    ensures !IsHexText(text) ==> r == Err(BadHex(text))
    ensures IsHexText(text) && HexValue(text) >= CodePointLimit ==> r == Err(CodePointTooLarge(HexValue(text)))
  {
    if !IsHexText(text) then Err(BadHex(text))
    else if HexValue(text) >= CodePointLimit then Err(CodePointTooLarge(HexValue(text)))
    else Ok(HexValue(text))
  }

  /** Every code point below the limit, written in hex, decodes to itself. */
  lemma DecodeCodePointOfHex(n: nat)
    requires n < CodePointLimit
    ensures DecodeCodePoint(ToHex(n)) == Ok(n)
  {
    HexRoundTrip(n);
  }

  // ---------------------------------------------------------------------------
  // tokenisation: set(name.replace('-', ' ').split())

  /** A searchable word: non-empty, with neither whitespace nor hyphens. */
  predicate IsToken(t: string) {
    |t| > 0 && forall k :: 0 <= k < |t| ==> !IsSpace(t[k]) && t[k] != '-'
  }

  function Tokens(name: string): (r: set<string>)
    ensures forall t :: t in r ==> IsToken(t)
  {
    var spaced := ReplaceChar(name, '-', ' ');
    assert '-' !in spaced;
    WordsAvoid(spaced, '-');
    set w | w in Words(spaced)
  }

  lemma TokensOfEmpty()
    ensures Tokens("") == {}
  {
    assert ReplaceChar("", '-', ' ') == "";
    assert Words("") == [];
  }

  /** Hyphens are replaced piecewise, and the separating space stays a space. */
  lemma ReplaceSpaced(a: string, b: string)
    ensures ReplaceChar(a + [' '] + b, '-', ' ') == ReplaceChar(a, '-', ' ') + [' '] + ReplaceChar(b, '-', ' ')
  {
    ReplaceCharAppend(a + [' '], b, '-', ' ');
    ReplaceCharAppend(a, [' '], '-', ' ');
    assert ReplaceChar([' '], '-', ' ') == [' '];
  }

  lemma SetOfAppend(x: seq<string>, y: seq<string>)
    ensures (set w | w in x + y) == (set w | w in x) + (set w | w in y)
  {
  }

  /** A separating space splits the token set into a union. */
  lemma TokensOfSpaced(a: string, b: string)
    ensures Tokens(a + [' '] + b) == Tokens(a) + Tokens(b)
  {
    var ra := ReplaceChar(a, '-', ' ');
    var rb := ReplaceChar(b, '-', ' ');
    ReplaceSpaced(a, b);
    WordsOfSpaced(ra, rb);
    SetOfAppend(Words(ra), Words(rb));
  }

  /** A token on its own tokenises to itself. */
  lemma TokensOfToken(t: string)
    requires IsToken(t)
    ensures Tokens(t) == {t}
  {
    assert ReplaceChar(t, '-', ' ') == t;
    WordsOfSingleWord(t);
  }

  lemma SetOfCons(ts: seq<string>)
    requires |ts| > 0
    ensures (set t | t in ts) == {ts[0]} + set t | t in ts[1..]
  {
    assert forall t :: t in ts <==> t == ts[0] || t in ts[1..];
  }

  lemma TokensOfJoinStep(ts: seq<string>)
    requires |ts| > 1 && IsToken(ts[0])
    ensures Tokens(Join(ts, ' ')) == {ts[0]} + Tokens(Join(ts[1..], ' '))
  {
    var rest := Join(ts[1..], ' ');
    assert Join(ts, ' ') == ts[0] + [' '] + rest;
    TokensOfSpaced(ts[0], rest);
    TokensOfToken(ts[0]);
  }

  /** Tokens joined by spaces tokenise back to exactly those tokens. */
  lemma {:induction false} TokensOfJoin(ts: seq<string>)
    requires forall i :: 0 <= i < |ts| ==> IsToken(ts[i])
    ensures Tokens(Join(ts, ' ')) == set t | t in ts
  {
    if |ts| == 0 {
      TokensOfEmpty();
    } else if |ts| == 1 {
      TokensOfToken(ts[0]);
      SetOfCons(ts);
    } else {
      TokensOfJoin(ts[1..]);
      TokensOfJoinStep(ts);
      SetOfCons(ts);
    }
  }

  /** The separator written between the two names of a merged display text. */
  const Bar: string := "|"

  lemma BarIsToken()
    ensures IsToken(Bar)
  {
  }

  lemma TokensAroundToken(a: string, m: string, b: string)
    requires IsToken(m)
    ensures Tokens(a + [' '] + (m + [' '] + b)) == Tokens(a) + {m} + Tokens(b)
  {
    TokensOfSpaced(a, m + [' '] + b);
    TokensOfSpaced(m, b);
    TokensOfToken(m);
  }

  lemma BarJoinSpaced(a: string, b: string)
    ensures a + " | " + b == a + [' '] + (Bar + [' '] + b)
  {
  }

  /** Tokenising `a | b` (as the merged display text is written) gives both token sets and the bar. */
  lemma TokensOfBarJoin(a: string, b: string)
    ensures Tokens(a + " | " + b) == Tokens(a) + {Bar} + Tokens(b)
  {
    BarJoinSpaced(a, b);
    BarIsToken();
    TokensAroundToken(a, Bar, b);
  }
}
