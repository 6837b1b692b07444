/** The string handling the editor applies to what the user types:
    `String.prototype.trim` to reject blank input, `toLowerCase` for stored
    type names, and the shortening of long statements on the canvas. */
module Text {

  /** The characters `trim` removes: ECMAScript WhiteSpace (tab, vertical tab,
      form feed, space, no-break space, byte order mark and the Unicode space
      separators) and LineTerminator (line feed, carriage return, U+2028, U+2029).
      Visible ASCII characters are never trimmed. */
  predicate IsWhitespace(c: char)
    ensures c == ' ' || c == '\t' || c == '\n' || c == '\r' || c == '\U{000B}' || c == '\U{000C}' ==> IsWhitespace(c)
    ensures '!' <= c <= '~' ==> !IsWhitespace(c)
  {
    || ('\t' <= c <= '\r')
    || c == ' ' || c == '\U{00A0}' || c == '\U{1680}'
    || ('\U{2000}' <= c <= '\U{200A}')
    || c == '\U{2028}' || c == '\U{2029}' || c == '\U{202F}' || c == '\U{205F}'
    || c == '\U{3000}' || c == '\U{FEFF}'
  }

  /** Every character of `s` is whitespace (the empty string included). */
  predicate IsBlank(s: string) {
    forall i :: 0 <= i < |s| ==> IsWhitespace(s[i])
  }

  /** `s` without its leading whitespace: a suffix of `s`. */
  function TrimStart(s: string): (r: string)
    ensures |r| <= |s| && r == s[|s| - |r|..]
    ensures forall i :: 0 <= i < |s| - |r| ==> IsWhitespace(s[i])
    ensures r != [] ==> !IsWhitespace(r[0])
    decreases |s|
  {
    if s != [] && IsWhitespace(s[0]) then TrimStart(s[1..]) else s
  }

  /** `s` without its trailing whitespace: a prefix of `s`. */
  function TrimEnd(s: string): (r: string)
    ensures |r| <= |s| && r == s[..|r|]
    ensures forall i :: |r| <= i < |s| ==> IsWhitespace(s[i])
    ensures r != [] ==> !IsWhitespace(r[|r| - 1])
    decreases |s|
  {
    if s != [] && IsWhitespace(s[|s| - 1]) then TrimEnd(s[..|s| - 1]) else s
  }

  /** The number of whitespace characters `s` starts with. */
  function LeadingWhitespace(s: string): (k: nat)
    ensures k <= |s|
    ensures forall i :: 0 <= i < k ==> IsWhitespace(s[i])
    ensures k < |s| ==> !IsWhitespace(s[k])
  {
    if s != [] && IsWhitespace(s[0]) then 1 + LeadingWhitespace(s[1..]) else 0
  }

  /** `r` neither starts nor ends with whitespace. */
  predicate IsStripped(r: string) {
    r != [] ==> !IsWhitespace(r[0]) && !IsWhitespace(r[|r| - 1])
  }

  /** `r` occurs in `s` starting at index `k`. */
  predicate OccursAt(r: string, s: string, k: nat) {
    k + |r| <= |s| && r == s[k..k + |r|]
  }

  /** `s.trim()`: the part of `s` that starts after its leading whitespace,
      neither starts nor ends with whitespace, and is empty exactly when `s`
      is blank, which is why the guard `if (text.trim())` rejects blank input. */
  function Trim(s: string): (r: string)
    ensures OccursAt(r, s, LeadingWhitespace(s))
    ensures IsStripped(r)
    ensures r == [] <==> IsBlank(s)
  {
    TrimFacts(s);
    TrimEnd(TrimStart(s))
  }

  /** Everything `Trim` promises, proved about its body. */
  lemma TrimFacts(s: string)
    ensures var r := TrimEnd(TrimStart(s));
      && OccursAt(r, s, LeadingWhitespace(s))
      && IsStripped(r)
      && (r == [] <==> IsBlank(s))
  {
    TrimEmptyIffBlank(s);
    TrimIsSlice(s);
  }

  /** What trimming keeps starts right after the leading whitespace. */
  lemma TrimIsSlice(s: string)
    ensures OccursAt(TrimEnd(TrimStart(s)), s, LeadingWhitespace(s))
  {
    var t := TrimStart(s);
    LeadingWhitespaceIsTrimmed(s);
    PrefixOfSuffixOccurs(s, t, TrimEnd(t));
  }

  /** A prefix of a suffix of `s` occurs in `s` where the suffix starts. */
  lemma PrefixOfSuffixOccurs(s: string, t: string, r: string)
    requires |r| <= |t| <= |s| && t == s[|s| - |t|..] && r == t[..|r|]
    ensures OccursAt(r, s, |s| - |t|)
  {
  }

  lemma {:induction false} LeadingWhitespaceIsTrimmed(s: string)
    ensures LeadingWhitespace(s) == |s| - |TrimStart(s)|
    decreases |s|
  {
    if s != [] && IsWhitespace(s[0]) {
      LeadingWhitespaceIsTrimmed(s[1..]);
    }
  }

  lemma TrimEmptyIffBlank(s: string)
    ensures TrimEnd(TrimStart(s)) == [] <==> IsBlank(s)
  {
    if IsBlank(s) {
      BlankTrimsToEmpty(s);
    } else {
      var i :| 0 <= i < |s| && !IsWhitespace(s[i]);
      TextSurvivesTrim(s, i);
    }
  }

  /** Whether `s` has a non-whitespace character: the truth value of
      `s.trim()`, as `TrimmedIsTruthy` shows. */
  function HasText(s: string): (b: bool)
    ensures b <==> !IsBlank(s)
  {
    s != [] && (!IsWhitespace(s[0]) || HasText(s[1..]))
  }

  /** `s.trim()` is a non-empty string exactly when `s` has text. */
  lemma TrimmedIsTruthy(s: string)
    ensures Trim(s) != [] <==> HasText(s)
  {
  }

  lemma BlankTrimsToEmpty(s: string)
    requires IsBlank(s)
    ensures TrimEnd(TrimStart(s)) == []
  {
    assert TrimStart(s) == [];
  }

  lemma TextSurvivesTrim(s: string, i: nat)
    requires i < |s| && !IsWhitespace(s[i])
    ensures TrimEnd(TrimStart(s)) != []
  {
    var t := TrimStart(s);
    var k := |s| - |t|;
    assert i >= k;
    assert t[i - k] == s[i];
    var r := TrimEnd(t);
    assert i - k < |r|;
  }

  /** The upper-case letters the model lower-cases: ASCII A-Z and Latin-1
      U+00C0-U+00DE except the multiplication sign U+00D7. */
  predicate IsUpper(c: char) {
    ('A' <= c <= 'Z') || ('\U{00C0}' <= c <= '\U{00DE}' && c != '\U{00D7}')
  }

  function LowerChar(c: char): (d: char)
    ensures !IsUpper(d)
    ensures !IsUpper(c) ==> d == c
    ensures IsUpper(c) ==> d as int == c as int + 32
  {
    if IsUpper(c) then (c as int + 32) as char else c
  }

  /** `s.toLowerCase()`, for the letters of `IsUpper`. */
  function ToLower(s: string): (r: string)
    ensures |r| == |s|
    ensures forall i :: 0 <= i < |s| ==> r[i] == LowerChar(s[i])
    ensures IsLowerCase(r)
  {
    seq(|s|, i requires 0 <= i < |s| => LowerChar(s[i]))
  }

  predicate IsLowerCase(s: string) {
    forall i :: 0 <= i < |s| ==> !IsUpper(s[i])
  }

  /** `s.length > limit ? s.substring(0, keep) + '...' : s`. */
  function Truncate(s: string, limit: nat, keep: nat): (r: string)
    requires keep + 3 <= limit
    ensures |r| <= limit
    ensures r == s <==> |s| <= limit
    ensures |s| > limit ==> |r| == keep + 3 && r[..keep] == s[..keep] && r[keep..] == "..."
  {
    if |s| > limit then s[..keep] + "..." else s
  }

  /** The statement shown inside a node's circle: at most 20 characters. */
  function NodeLabel(statement: string): (r: string)
    ensures |r| <= 20
    ensures r == statement <==> |statement| <= 20
    ensures |statement| > 20 ==> r == statement[..17] + "..."
  {
    Truncate(statement, 20, 17)
  }

  /** The statement shown in the edit dialog's preview: at most 15 characters. */
  function PreviewLabel(statement: string): (r: string)
    ensures |r| <= 15
    ensures r == statement <==> |statement| <= 15
    ensures |statement| > 15 ==> r == statement[..12] + "..."
  {
    Truncate(statement, 15, 12)
  }
}
