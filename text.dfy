/** String helpers the OTML parser takes from its standard-extension library
    (trim, find, split, integer-to-string conversion). Their bodies are not
    part of this model; each is specified here by what the parser relies on. */
module Text {

  datatype Option<T> = None | Some(value: T)

  /** ASCII white space as classified by `isspace` in the "C" locale: the
      space and the characters from horizontal tab to carriage return (tab,
      line feed, vertical tab, form feed, carriage return). */
  predicate IsSpace(c: char) {
    c == ' ' || '\t' <= c <= '\r'
  }

  /** A string made of white space only (the empty string included). */
  predicate IsBlank(s: string) {
    forall i {:trigger IsSpace(s[i])} :: 0 <= i < |s| ==> IsSpace(s[i])
  }

  predicate StartsWith(s: string, prefix: string) {
    |prefix| <= |s| && s[..|prefix|] == prefix
  }

  predicate EndsWith(s: string, suffix: string) {
    |suffix| <= |s| && s[|s| - |suffix|..] == suffix
  }

  /** The first position at or after `i` that does not hold white space. */
  function SkipSpaces(s: string, i: nat): (n: nat)
    requires i <= |s|
    ensures i <= n <= |s|
    decreases |s| - i
  {
    if i < |s| && IsSpace(s[i]) then SkipSpaces(s, i + 1) else i
  }

  /** `SkipSpaces` passes over white space only and stops at the end or at a
      character that is not white space. */
  lemma {:induction false} SkipSpacesMeaning(s: string, i: nat)
    requires i <= |s|
    ensures var n := SkipSpaces(s, i);
      && (forall k :: i <= k < n ==> IsSpace(s[k]))
      && (n == |s| || !IsSpace(s[n]))
    decreases |s| - i
  {
    if i < |s| && IsSpace(s[i]) {
      SkipSpacesMeaning(s, i + 1);
    }
  }

  /** The start of the run of white space that ends at position `j`. */
  function SpacesBefore(s: string, j: nat): (n: nat)
    requires j <= |s|
    ensures n <= j
    decreases j
  {
    if j > 0 && IsSpace(s[j - 1]) then SpacesBefore(s, j - 1) else j
  }

  /** `SpacesBefore` passes back over white space only and stops at the start
      or after a character that is not white space. */
  lemma {:induction false} SpacesBeforeMeaning(s: string, j: nat)
    requires j <= |s|
    ensures var n := SpacesBefore(s, j);
      && (forall k :: n <= k < j ==> IsSpace(s[k]))
      && (n == 0 || !IsSpace(s[n - 1]))
    decreases j
  {
    if j > 0 && IsSpace(s[j - 1]) {
      SpacesBeforeMeaning(s, j - 1);
    }
  }

  /** `stdext::trim`: drops white space on both sides. The result is empty
      exactly when `s` is blank, and otherwise starts and ends with a
      character that is not white space. */
  function Trim(s: string): (r: string)
    ensures |r| <= |s|
    ensures r == [] <==> IsBlank(s)
    ensures r == [] || (!IsSpace(r[0]) && !IsSpace(r[|r| - 1]))
  {
    var b := SkipSpaces(s, 0);
    var e := SpacesBefore(s, |s|);
    TrimEnds(s);
    if e <= b then []
    else
      assert s[b..e][0] == s[b];
      assert s[b..e][e - b - 1] == s[e - 1];
      s[b..e]
  }

  /** The two runs of white space `Trim` cuts off meet exactly when `s` is
      blank; otherwise they stop at characters that are not white space. */
  lemma TrimEnds(s: string)
    ensures var b, e := SkipSpaces(s, 0), SpacesBefore(s, |s|);
      && (e <= b <==> IsBlank(s))
      && (b < e ==> !IsSpace(s[b]) && !IsSpace(s[e - 1]))
  {
    var b, e := SkipSpaces(s, 0), SpacesBefore(s, |s|);
    SkipSpacesMeaning(s, 0);
    SpacesBeforeMeaning(s, |s|);
    if e <= b {
      assert b == |s|;
    }
  }

  /** White space around a string without white space at its ends is what
      trimming removes. */
  lemma TrimPadded(pad1: string, inner: string, pad2: string)
    requires IsBlank(pad1) && IsBlank(pad2)
    requires inner != [] && !IsSpace(inner[0]) && !IsSpace(inner[|inner| - 1])
    ensures Trim(pad1 + inner + pad2) == inner
  {
    var s := pad1 + inner + pad2;
    SkipSpacesMeaning(s, 0);
    SpacesBeforeMeaning(s, |s|);
    var b := SkipSpaces(s, 0);
    var e := SpacesBefore(s, |s|);
    assert s[|pad1|] == inner[0];
    assert s[|pad1| + |inner| - 1] == inner[|inner| - 1];
    assert forall k :: 0 <= k < |pad1| ==> s[k] == pad1[k];
    assert forall k :: |pad1| + |inner| <= k < |s| ==> s[k] == pad2[k - |pad1| - |inner|];
    assert b == |pad1|;
    assert e == |pad1| + |inner|;
    assert s[b..e] == inner;
  }

  /** Every character of a trimmed string comes from the string. */
  lemma TrimSubsequence(s: string)
    ensures forall c :: c in Trim(s) ==> c in s
  {
    var b := SkipSpaces(s, 0);
    var e := SpacesBefore(s, |s|);
    if b < e {
      forall c | c in Trim(s) ensures c in s {
        var i :| 0 <= i < e - b && s[b..e][i] == c;
        assert s[b + i] == c;
      }
    }
  }

  /** Trimming twice is trimming once. */
  lemma TrimIdempotent(s: string)
    ensures Trim(Trim(s)) == Trim(s)
  {
    var t := Trim(s);
    if t != [] {
      assert SkipSpaces(t, 0) == 0;
      assert SpacesBefore(t, |t|) == |t|;
      assert t[0..|t|] == t;
    }
  }

  /** `pat` occurs in `s` at position `k`. */
  predicate OccursAt(s: string, pat: string, k: nat) {
    k + |pat| <= |s| && s[k..k + |pat|] == pat
  }

  /** `std::string::find(pat, from)`: the first position at or after `from`
      where `pat` occurs, or None (`npos`). */
  function FindFrom(s: string, pat: string, from: nat): (r: Option<nat>)
    decreases |s| - from
    ensures r.Some? ==> from <= r.value && OccursAt(s, pat, r.value)
    ensures r.Some? ==> forall k :: from <= k < r.value ==> !OccursAt(s, pat, k)
    ensures r.None? ==> forall k :: from <= k ==> !OccursAt(s, pat, k)
  {
    if from + |pat| > |s| then None
    else if s[from..from + |pat|] == pat then Some(from)
    else FindFrom(s, pat, from + 1)
  }

  /** Joins `parts` with `sep` between neighbours. */
  function Join(parts: seq<string>, sep: char): string
    requires |parts| >= 1
  {
    if |parts| == 1 then parts[0] else parts[0] + [sep] + Join(parts[1..], sep)
  }

  /** `stdext::split` at a one-character separator: the pieces between
      consecutive separators, in order, empty pieces included. */
  function Split(s: string, sep: char): (r: seq<string>)
    ensures |r| >= 1
    ensures forall t :: t in r ==> sep !in t
    ensures Join(r, sep) == s
  {
    var k := FindFrom(s, [sep], 0);
    if k.None? then
      assert sep !in s by {
        forall i | 0 <= i < |s| ensures s[i] != sep {
          assert !OccursAt(s, [sep], i);
          assert s[i..i + 1] == [s[i]];
        }
      }
      [s]
    else
      var head := s[..k.value];
      assert sep !in head by {
        forall i | 0 <= i < |head| ensures head[i] != sep {
          assert !OccursAt(s, [sep], i);
          assert s[i..i + 1] == [s[i]];
        }
      }
      var rest := Split(s[k.value + 1..], sep);
      assert s == head + [sep] + s[k.value + 1..];
      [head] + rest
  }

  /** Splitting a join of separator-free pieces gives the pieces back. */
  lemma {:induction false} SplitJoin(parts: seq<string>, sep: char)
    requires |parts| >= 1
    requires forall t :: t in parts ==> sep !in t
    ensures Split(Join(parts, sep), sep) == parts
  {
    if |parts| == 1 {
      var s := parts[0];
      forall k | 0 <= k ensures !OccursAt(s, [sep], k) {
        if k + 1 <= |s| {
          assert s[k..k + 1] == [s[k]];
          assert s[k] in parts[0];
        }
      }
    } else {
      var s := Join(parts, sep);
      var tail := Join(parts[1..], sep);
      assert s == parts[0] + [sep] + tail;
      var k := |parts[0]|;
      assert OccursAt(s, [sep], k);
      forall i | 0 <= i < k ensures !OccursAt(s, [sep], i) {
        assert s[i] == parts[0][i];
        assert s[i..i + 1] == [s[i]];
        assert parts[0][i] in parts[0];
      }
      assert FindFrom(s, [sep], 0) == Some(k);
      assert s[..k] == parts[0];
      assert s[k + 1..] == tail;
      SplitJoin(parts[1..], sep);
      assert parts == [parts[0]] + parts[1..];
    }
  }

  predicate IsDigit(c: char) {
    '0' <= c <= '9'
  }

  function DigitChar(d: nat): (c: char)
    requires d < 10
    ensures IsDigit(c)
  {
    "0123456789"[d]
  }

  /** Decimal value of a digit string. */
  function DecimalValue(s: string): nat
    requires forall c :: c in s ==> IsDigit(c)
  {
    if s == [] then 0 else
      assert s[|s| - 1] in s;
      assert IsDigit(s[|s| - 1]);
      10 * DecimalValue(s[..|s| - 1]) + (s[|s| - 1] as int - '0' as int)
  }

  /** `unsafe_cast<std::string>` of a line number: its decimal digits, with no
      leading zero. */
  function NatToString(n: nat): (r: string)
    ensures |r| >= 1 && forall c :: c in r ==> IsDigit(c)
    ensures |r| > 1 ==> r[0] != '0'
  {
    if n < 10 then [DigitChar(n)] else NatToString(n / 10) + [DigitChar(n % 10)]
  }

  /** Reading the digits back gives the number. */
  lemma {:induction false} NatToStringRoundTrip(n: nat)
    ensures DecimalValue(NatToString(n)) == n
  {
    if n >= 10 {
      var s := NatToString(n);
      assert s[..|s| - 1] == NatToString(n / 10);
      NatToStringRoundTrip(n / 10);
    }
  }
}
