/** Character-level helpers shared by the server model: the C library
    string functions the server relies on (strcasecmp, strstr, strlen,
    the %d / %zu / %ld decimal conversions), written over Dafny strings. */
module Strings {

  datatype Option<T> = None | Some(value: T)

  function Min(a: nat, b: nat): nat { if a <= b then a else b }

  // ---------------------------------------------------------------------
  // Case folding (C locale tolower, as used by strcasecmp)

  function Lower(c: char): char {
    if 'A' <= c <= 'Z' then (c as int + 32) as char else c
  }

  function LowerString(s: string): (r: string)
    ensures |r| == |s|
  {
    seq(|s|, i requires 0 <= i < |s| => Lower(s[i]))
  }

  /** strcasecmp(a, b) == 0 */
  predicate EqualsIgnoreCase(a: string, b: string) {
    LowerString(a) == LowerString(b)
  }

  lemma LowerStringSlice(s: string, k: nat)
    requires k <= |s|
    ensures LowerString(s[k..]) == LowerString(s)[k..]
  {
  }

  // ---------------------------------------------------------------------
  // Substring search (strstr)

  predicate OccursAt(s: string, pat: string, i: nat) {
    i + |pat| <= |s| && s[i..i + |pat|] == pat
  }

  /** The first occurrence of pat in s at or after position i. */
  function FindFrom(s: string, pat: string, i: nat): (r: Option<nat>)
    requires i <= |s|
    ensures r.Some? ==> i <= r.value <= |s| && OccursAt(s, pat, r.value)
    ensures r.Some? ==> forall j :: i <= j < r.value ==> !OccursAt(s, pat, j)
    ensures r.None? ==> forall j :: i <= j <= |s| ==> !OccursAt(s, pat, j)
    decreases |s| - i
  {
    if OccursAt(s, pat, i) then Some(i)
    else if i == |s| then None
    else FindFrom(s, pat, i + 1)
  }

  /** strstr(s, pat): the index of the first occurrence of pat in s. */
  function Find(s: string, pat: string): (r: Option<nat>)
    ensures r.Some? ==> OccursAt(s, pat, r.value)
    ensures r.Some? ==> forall j :: 0 <= j < r.value ==> !OccursAt(s, pat, j)
    ensures r.None? <==> forall j :: 0 <= j <= |s| ==> !OccursAt(s, pat, j)
  {
    FindFrom(s, pat, 0)
  }

  predicate Contains(s: string, pat: string) {
    Find(s, pat).Some?
  }

  // ---------------------------------------------------------------------
  // NUL-terminated views (strlen)

  /** The C string held by a buffer: everything before the first NUL. */
  function CStringOf(s: seq<char>): (r: string)
    ensures |r| <= |s| && r == s[..|r|]
    ensures '\0' !in r
    ensures |r| < |s| ==> s[|r|] == '\0'
  {
    if s == [] then []
    else if s[0] == '\0' then []
    else [s[0]] + CStringOf(s[1..])
  }

  /** Whatever follows a NUL is not part of the C string. */
  lemma {:induction false} CStringOfTerminated(s: seq<char>, t: seq<char>)
    ensures CStringOf(s + ['\0'] + t) == CStringOf(s)
  {
    if s != [] {
      assert (s + ['\0'] + t)[1..] == s[1..] + ['\0'] + t;
      CStringOfTerminated(s[1..], t);
    }
  }

  lemma {:induction false} CStringOfNulFree(s: seq<char>)
    requires '\0' !in s
    ensures CStringOf(s) == s
  {
    if s != [] {
      CStringOfNulFree(s[1..]);
    }
  }

  /** The first n characters of s, or all of s when it is shorter. */
  function Truncate(s: string, n: nat): (r: string)
    ensures |r| == Min(|s|, n) && r == s[..|r|]
  {
    s[..Min(|s|, n)]
  }

  /** The characters snprintf(buf, size, ...) stores before its NUL when
      the format expands to text: all of it when it fits, otherwise the
      first size - 1 characters, and nothing at all when size is 0. */
  function SnprintfStored(text: string, size: nat): (r: string)
    ensures |r| == (if size == 0 then 0 else Min(|text|, size - 1))
    ensures r == text[..|r|]
  {
    if size == 0 then [] else Truncate(text, size - 1)
  }

  /** Appending to a truncated text keeps what fits. */
  lemma TruncateAppend(a: string, t: string, n: nat)
    ensures Truncate(a + t, n) == Truncate(a, n) + Truncate(t, n - Min(|a|, n))
  {
    var l := Truncate(a + t, n);
    var r := Truncate(a, n) + Truncate(t, n - Min(|a|, n));
    assert |l| == |r|;
    forall i | 0 <= i < |l| ensures l[i] == r[i] {
      if i < Min(|a|, n) {
        assert l[i] == (a + t)[i] == a[i];
      } else {
        assert l[i] == (a + t)[i] == t[i - |a|];
      }
    }
  }

  lemma AppendAssoc(a: string, b: string, c: string)
    ensures (a + b) + c == a + (b + c)
  {
  }

  // ---------------------------------------------------------------------
  // Concatenation of a list of strings

  function Flatten(parts: seq<string>): (r: string)
    ensures parts == [] ==> r == []
  {
    if parts == [] then [] else parts[0] + Flatten(parts[1..])
  }

  lemma {:induction false} FlattenAppend(a: seq<string>, b: seq<string>)
    ensures Flatten(a + b) == Flatten(a) + Flatten(b)
  {
    if a != [] {
      assert (a + b)[1..] == a[1..] + b;
      FlattenAppend(a[1..], b);
    } else {
      assert a + b == b;
    }
  }

  // ---------------------------------------------------------------------
  // Formatting into a fixed buffer

  /** One snprintf(output + pos, output.Length - pos, text) whose offset is
      kept within the buffer: stores as much of text as fits before the last
      byte, NUL-terminates, and advances by what was stored. */
  method Emit(output: array<char>, pos: nat, text: string) returns (next: nat)
    requires pos < output.Length
    modifies output
    ensures next == pos + Min(|text|, output.Length - 1 - pos) && next < output.Length
    ensures output[..pos] == old(output[..pos])
    ensures output[pos..next] == text[..next - pos]
    ensures output[next] == '\0'
    ensures output[next + 1..] == old(output[next + 1..])
  {
    var k := Min(|text|, output.Length - 1 - pos);
    forall j | pos <= j < pos + k {
      output[j] := text[j - pos];
    }
    output[pos + k] := '\0';
    next := pos + k;
  }

  /** Emit after a buffer that holds `done` cut to its size: it then holds
      `done + text` cut to its size. */
  method EmitAfter(output: array<char>, pos: nat, ghost done: string, text: string) returns (next: nat)
    requires pos < output.Length && output[..pos] == Truncate(done, output.Length - 1)
    modifies output
    ensures next < output.Length && output[next] == '\0'
    ensures output[..next] == Truncate(done + text, output.Length - 1)
    ensures output[next + 1..] == old(output[next + 1..])
  {
    ghost var before := output[..pos];
    next := Emit(output, pos, text);
    assert output[..next] == before + output[pos..next];
    TruncateAppend(done, text, output.Length - 1);
  }

  // ---------------------------------------------------------------------
  // Decimal numerals (printf %d, %zu, %ld of a non-negative value)

  predicate IsDigit(c: char) { '0' <= c <= '9' }

  predicate AllDigits(s: string) {
    forall i :: 0 <= i < |s| ==> IsDigit(s[i])
  }

  function DigitChar(d: nat): (c: char)
    requires d < 10
    ensures IsDigit(c) && c as int - '0' as int == d
  {
    ('0' as int + d) as char
  }

  /** The decimal numeral of n, without leading zeros. */
  function NatToString(n: nat): (r: string)
    ensures |r| >= 1 && AllDigits(r)
    ensures r[0] == '0' <==> n == 0
    ensures n == 0 ==> r == "0"
  {
    if n < 10 then [DigitChar(n)] else NatToString(n / 10) + [DigitChar(n % 10)]
  }

  /** The value of a string of decimal digits. */
  function DecimalValue(s: string): nat
    requires AllDigits(s)
  {
    if s == [] then 0
    else 10 * DecimalValue(s[..|s| - 1]) + (s[|s| - 1] as int - '0' as int)
  }

  /** Reading back a printed number gives the number. */
  lemma {:induction false} DecimalRoundTrip(n: nat)
    ensures DecimalValue(NatToString(n)) == n
  {
    if n >= 10 {
      var s := NatToString(n);
      assert s[..|s| - 1] == NatToString(n / 10);
      DecimalRoundTrip(n / 10);
    }
  }

  /** Different numbers print differently. */
  lemma NatToStringInjective(m: nat, n: nat)
    requires NatToString(m) == NatToString(n)
    ensures m == n
  {
    DecimalRoundTrip(m);
    DecimalRoundTrip(n);
  }
}
