/**
 * The .NET character and string helpers the backend relies on
 * (`char.IsWhiteSpace`, `char.IsLetterOrDigit`, `ToUpperInvariant`,
 * `ToLowerInvariant`, `string.Trim`, `string.IsNullOrWhiteSpace`),
 * restricted to the ASCII range plus the two Latin-1 spaces.
 */
module Text {

  /** `char.IsWhiteSpace` on the characters the model covers. */
  predicate IsWhiteSpace(c: char) {
    var n := c as int;
    n == 32 || 9 <= n <= 13 || n == 0x85 || n == 0xA0
  }

  predicate IsLower(c: char) { 'a' <= c <= 'z' }
  predicate IsUpper(c: char) { 'A' <= c <= 'Z' }
  predicate IsDigit(c: char) { '0' <= c <= '9' }

  /** `char.IsLetterOrDigit` on ASCII. */
  predicate IsLetterOrDigit(c: char) { IsLower(c) || IsUpper(c) || IsDigit(c) }

  function ToUpper(c: char): (r: char)
    ensures IsLower(c) ==> IsUpper(r) && ToLower(r) == c
    ensures !IsLower(c) ==> r == c
  {
    if IsLower(c) then (c as int - 32) as char else c
  }

  function ToLower(c: char): (r: char)
    ensures IsUpper(c) ==> IsLower(r)
    ensures !IsUpper(c) ==> r == c
  {
    if IsUpper(c) then (c as int + 32) as char else c
  }

  /** `ToUpperInvariant` on a whole string. */
  function UpperAll(s: string): (r: string)
    ensures |r| == |s|
    ensures forall i {:trigger r[i]} :: 0 <= i < |s| ==> r[i] == ToUpper(s[i])
  {
    seq(|s|, i requires 0 <= i < |s| => ToUpper(s[i]))
  }

  /** `ToLowerInvariant` (and `ToLower` in the invariant culture) on a whole string. */
  function LowerAll(s: string): (r: string)
    ensures |r| == |s|
    ensures forall i {:trigger r[i]} :: 0 <= i < |s| ==> r[i] == ToLower(s[i])
  {
    seq(|s|, i requires 0 <= i < |s| => ToLower(s[i]))
  }

  /** Lower-casing twice is lower-casing once. */
  lemma LowerAllIdempotent(s: string)
    ensures LowerAll(LowerAll(s)) == LowerAll(s)
  {
  }

  /** `string.IsNullOrWhiteSpace`; a null string is modelled by the empty one. */
  predicate IsBlank(s: string) {
    forall i :: 0 <= i < |s| ==> IsWhiteSpace(s[i])
  }

  /** `TrimStart()`: drops the leading white space and nothing else (see `TrimStartPadding`). */
  function TrimStart(s: string): (r: string)
    ensures |r| <= |s|
    ensures r != [] ==> !IsWhiteSpace(r[0])
  {
    if s != [] && IsWhiteSpace(s[0]) then TrimStart(s[1..]) else s
  }

  /** `TrimEnd()`: drops the trailing white space and nothing else (see `TrimEndPadding`). */
  function TrimEnd(s: string): (r: string)
    ensures |r| <= |s|
    ensures r != [] ==> !IsWhiteSpace(r[|r| - 1]) && r[0] == s[0]
  {
    if s != [] && IsWhiteSpace(s[|s| - 1]) then TrimEnd(s[..|s| - 1]) else s
  }

  /** `Trim()`: the input without its leading and trailing white space. */
  function Trim(s: string): (r: string)
    ensures r != [] ==> !IsWhiteSpace(r[0]) && !IsWhiteSpace(r[|r| - 1])
  {
    TrimEnd(TrimStart(s))
  }

  /** What `TrimStart` drops is a prefix of white space. */
  lemma {:induction false} TrimStartPadding(s: string) returns (head: string)
    ensures s == head + TrimStart(s) && IsBlank(head)
  {
    if s != [] && IsWhiteSpace(s[0]) {
      var h := TrimStartPadding(s[1..]);
      head := [s[0]] + h;
      assert s == [s[0]] + (h + TrimStart(s[1..]));
    } else {
      head := [];
    }
  }

  /** What `TrimEnd` drops is a suffix of white space. */
  lemma {:induction false} TrimEndPadding(s: string) returns (tail: string)
    ensures s == TrimEnd(s) + tail && IsBlank(tail)
  {
    if s != [] && IsWhiteSpace(s[|s| - 1]) {
      var init := s[..|s| - 1];
      var t := TrimEndPadding(init);
      tail := t + [s[|s| - 1]];
      assert s == (TrimEnd(init) + t) + [s[|s| - 1]];
    } else {
      tail := [];
    }
  }

  /** A string is its leading white space, its trimmed form and its trailing white space. */
  lemma TrimPadding(s: string) returns (head: string, tail: string)
    ensures s == head + (Trim(s) + tail)
    ensures IsBlank(head) && IsBlank(tail)
  {
    head := TrimStartPadding(s);
    tail := TrimEndPadding(TrimStart(s));
  }

  /** Trimming twice is trimming once. */
  lemma TrimIdempotent(s: string)
    ensures Trim(Trim(s)) == Trim(s)
  {
    var t := Trim(s);
    if t != [] {
      assert TrimStart(t) == t;
      assert TrimEnd(t) == t;
    }
  }

  /** A blank string trims to the empty one, and a non-blank one does not. */
  lemma TrimBlank(s: string)
    ensures IsBlank(s) <==> Trim(s) == []
  {
    var head, tail := TrimPadding(s);
    if Trim(s) == [] {
      assert s == head + tail;
      forall i | 0 <= i < |s| ensures IsWhiteSpace(s[i]) {
        if i < |head| {
          assert s[i] == head[i];
        } else {
          assert s[i] == tail[i - |head|];
        }
      }
    } else {
      assert s[|head|] == Trim(s)[0];
    }
  }

  /** `string.Join(sep, parts)`. */
  function Join(sep: string, parts: seq<string>): string {
    if parts == [] then ""
    else if |parts| == 1 then parts[0]
    else parts[0] + sep + Join(sep, parts[1..])
  }
}
