/**
 * The two pieces of .NET string handling the transceiver relies on:
 * `String.Split` with a fixed separator (the `" | "` packet separator and
 * the `','` field separator) and `long.Parse` under `NumberStyles.Integer`.
 */
module Text {
  import opened Wrappers

  // ---------------------------------------------------------------------
  // Splitting on a separator
  // ---------------------------------------------------------------------

  /** `sep` occurs in `s` starting at position `i`. */
  predicate OccursAt(s: string, sep: string, i: nat) {
    i + |sep| <= |s| && s[i..i + |sep|] == sep
  }

  /** `s` holds no complete occurrence of `sep`. */
  ghost predicate Free(s: string, sep: string) {
    forall i: nat :: !OccursAt(s, sep, i)
  }

  lemma OccursShift(s: string, sep: string, i: nat)
    requires |s| > 0
    ensures OccursAt(s, sep, i + 1) <==> OccursAt(s[1..], sep, i)
  {
    if i + 1 + |sep| <= |s| {
      assert s[i + 1..i + 1 + |sep|] == s[1..][i..i + |sep|];
    }
  }

  /** The leftmost occurrence of a non-empty separator, as `IndexOf` finds it. */
  function Find(s: string, sep: string): (r: Option<nat>)
    requires sep != ""
    ensures r.Some? ==> OccursAt(s, sep, r.value)
    ensures r.Some? ==> forall j: nat :: j < r.value ==> !OccursAt(s, sep, j)
    ensures r.None? ==> Free(s, sep)
    decreases |s|
  {
    if |s| < |sep| then None
    else if s[..|sep|] == sep then Some(0)
    else
      var rest := Find(s[1..], sep);
      assert forall j: nat :: OccursAt(s, sep, j + 1) <==> OccursAt(s[1..], sep, j) by {
        forall j: nat ensures OccursAt(s, sep, j + 1) <==> OccursAt(s[1..], sep, j) {
          OccursShift(s, sep, j);
        }
      }
      assert !OccursAt(s, sep, 0) by { assert s[0..|sep|] == s[..|sep|]; }
      match rest
      case None =>
        assert forall j: nat :: !OccursAt(s, sep, j) by {
          forall j: nat ensures !OccursAt(s, sep, j) {
            if j > 0 { assert OccursAt(s, sep, (j - 1) + 1) <==> OccursAt(s[1..], sep, j - 1); }
          }
        }
        None
      case Some(i) =>
        assert forall j: nat :: j < i + 1 ==> !OccursAt(s, sep, j) by {
          forall j: nat | j < i + 1 ensures !OccursAt(s, sep, j) {
            if j > 0 { assert OccursAt(s, sep, (j - 1) + 1) <==> OccursAt(s[1..], sep, j - 1); }
          }
        }
        Some(i + 1)
  }

  /** Glues `parts` back together with `sep` between neighbours. */
  function Join(parts: seq<string>, sep: string): string
    decreases |parts|
  {
    if |parts| == 0 then ""
    else if |parts| == 1 then parts[0]
    else parts[0] + sep + Join(parts[1..], sep)
  }

  /** A prefix of `s` that ends before the leftmost occurrence holds no occurrence. */
  lemma PrefixBeforeFirstIsFree(s: string, sep: string, i: nat)
    requires sep != "" && i <= |s|
    requires forall j: nat :: j < i ==> !OccursAt(s, sep, j)
    ensures Free(s[..i], sep)
  {
    forall j: nat | OccursAt(s[..i], sep, j) ensures false {
      assert s[..i][j..j + |sep|] == s[j..j + |sep|];
      assert OccursAt(s, sep, j);
    }
  }

  /** `Find` reports `i` when `sep` occurs there and nowhere before. */
  lemma {:induction false} FindAt(s: string, sep: string, i: nat)
    requires sep != "" && OccursAt(s, sep, i)
    requires forall j: nat :: j < i ==> !OccursAt(s, sep, j)
    ensures Find(s, sep) == Some(i)
  {
  }

  /** `part` followed by `sep` holds its first occurrence of `sep` right after `part`. */
  predicate EndsAtFirst(part: string, sep: string)
    requires sep != ""
  {
    Find(part + sep, sep) == Some(|part|)
  }

  /**
   * The text before the leftmost occurrence, followed by the separator, is
   * cut at that same place.
   */
  lemma {:induction false} CutAtFirst(s: string, sep: string, i: nat)
    requires sep != "" && Find(s, sep) == Some(i)
    ensures EndsAtFirst(s[..i], sep)
  {
    var n := i + |sep|;
    assert s[..i] + sep == s[..n];
    forall j: nat | j <= i ensures OccursAt(s[..n], sep, j) == OccursAt(s, sep, j) {
      OccursInPrefix(s, sep, n, j);
    }
    FindAt(s[..n], sep, i);
  }

  /** An occurrence that fits in the first `n` characters is one of the prefix. */
  lemma {:induction false} OccursInPrefix(s: string, sep: string, n: nat, j: nat)
    requires n <= |s| && j + |sep| <= n
    ensures OccursAt(s[..n], sep, j) == OccursAt(s, sep, j)
  {
    assert s[..n][j..j + |sep|] == s[j..j + |sep|];
  }

  /**
   * `String.Split(sep)` with a non-empty separator and no options: the text
   * between occurrences found left to right, without overlap. Gluing the
   * parts back gives the input and no part holds the separator;
   * `SplitCutsAtFirst` adds that every cut is at the leftmost occurrence, and
   * `SplitUnique` that no other cutting has these properties.
   */
  function Split(s: string, sep: string): (parts: seq<string>)
    requires sep != ""
    ensures |parts| >= 1
    ensures Join(parts, sep) == s
    ensures forall k :: 0 <= k < |parts| ==> Free(parts[k], sep)
    decreases |s|
  {
    match Find(s, sep)
    case None => [s]
    case Some(i) =>
      var rest := Split(s[i + |sep|..], sep);
      PrefixBeforeFirstIsFree(s, sep, i);
      assert ([s[..i]] + rest)[1..] == rest;
      assert s == s[..i] + sep + s[i + |sep|..] by {
        assert s[i..i + |sep|] == sep;
        assert s == s[..i] + s[i..i + |sep|] + s[i + |sep|..];
      }
      [s[..i]] + rest
  }

  /** Every part of `parts` but the last ends where the separator's first occurrence after it begins. */
  ghost predicate CutsAtFirst(parts: seq<string>, sep: string)
    requires sep != ""
  {
    forall k :: 0 <= k < |parts| - 1 ==> EndsAtFirst(parts[k], sep)
  }

  /** `Split` cuts at the leftmost occurrence each time. */
  lemma {:induction false} SplitCutsAtFirst(s: string, sep: string)
    requires sep != ""
    ensures CutsAtFirst(Split(s, sep), sep)
    decreases |s|
  {
    match Find(s, sep)
    case None =>
    case Some(i) =>
      var parts, rest := Split(s, sep), Split(s[i + |sep|..], sep);
      assert parts == [s[..i]] + rest;
      CutAtFirst(s, sep, i);
      SplitCutsAtFirst(s[i + |sep|..], sep);
      forall k | 0 <= k < |parts| - 1 ensures EndsAtFirst(parts[k], sep) {
        if k > 0 {
          assert parts[k] == rest[k - 1];
        }
      }
  }

  /**
   * `Split` is the only cutting of `s` into parts that glue back to `s`,
   * each but the last ending where the separator's first occurrence after
   * it begins, and the last holding no separator.
   */
  lemma {:induction false} SplitUnique(s: string, sep: string, parts: seq<string>)
    requires sep != "" && |parts| >= 1 && Join(parts, sep) == s
    requires CutsAtFirst(parts, sep) && Free(parts[|parts| - 1], sep)
    ensures Split(s, sep) == parts
    decreases |parts|
  {
    if |parts| == 1 {
      assert Free(s, sep);
      assert Find(s, sep) == None;
    } else {
      var p, rest := parts[0], parts[1..];
      var t := Join(rest, sep);
      assert s == p + sep + t;
      assert EndsAtFirst(p, sep);
      assert OccursAt(s, sep, |p|) by {
        assert s[|p|..|p| + |sep|] == sep;
      }
      forall j: nat | j < |p| ensures !OccursAt(s, sep, j) {
        assert !OccursAt(p + sep, sep, j);
        if j + |sep| <= |s| {
          assert s[j..j + |sep|] == (p + sep)[j..j + |sep|];
        }
      }
      FindAt(s, sep, |p|);
      forall k | 0 <= k < |rest| - 1 ensures EndsAtFirst(rest[k], sep) {
        assert rest[k] == parts[k + 1];
      }
      SplitUnique(t, sep, rest);
      assert s[..|p|] == p;
      assert s[|p| + |sep|..] == t;
    }
  }

  /** Every part followed by the separator: what a sender writes for `parts`. */
  function Terminated(parts: seq<string>, sep: string): string
    decreases |parts|
  {
    if parts == [] then "" else parts[0] + sep + Terminated(parts[1..], sep)
  }

  lemma {:induction false} JoinAsTerminated(parts: seq<string>, sep: string)
    requires |parts| >= 1
    ensures Join(parts, sep) == Terminated(parts[..|parts| - 1], sep) + parts[|parts| - 1]
    decreases |parts|
  {
    if |parts| == 1 {
      assert parts[..0] == [];
    } else {
      JoinAsTerminated(parts[1..], sep);
      assert parts[1..][..|parts[1..]| - 1] == parts[..|parts| - 1][1..];
      assert parts[1..][|parts[1..]| - 1] == parts[|parts| - 1];
    }
  }

  /**
   * Splitting on `sep` and dropping the last part: the fragments that were
   * each followed by a separator, and the trailing text that holds none.
   */
  lemma {:induction false} SplitDropLast(s: string, sep: string)
    requires sep != ""
    ensures var parts := Split(s, sep);
      && s == Terminated(parts[..|parts| - 1], sep) + parts[|parts| - 1]
      && Free(parts[|parts| - 1], sep)
      && (forall k :: 0 <= k < |parts| - 1 ==> Free(parts[k], sep))
      && CutsAtFirst(parts, sep)
  {
    var parts := Split(s, sep);
    assert s == Terminated(parts[..|parts| - 1], sep) + parts[|parts| - 1] by {
      JoinAsTerminated(parts, sep);
    }
    SplitCutsAtFirst(s, sep);
  }

  /**
   * Splitting text that a sender wrote as `head`, a one-character separator
   * and `tail`, when `head` holds no separator.
   */
  lemma {:induction false} SplitFirst(head: string, sep: string, tail: string)
    requires |sep| == 1 && Free(head, sep)
    ensures Split(head + sep + tail, sep) == [head] + Split(tail, sep)
  {
    var s := head + sep + tail;
    assert OccursAt(s, sep, |head|) by {
      assert s[|head|..|head| + |sep|] == sep;
    }
    forall j: nat | j < |head| ensures !OccursAt(s, sep, j) {
      assert !OccursAt(head, sep, j);
      assert s[j..j + |sep|] == head[j..j + |sep|];
    }
    assert Find(s, sep) == Some(|head|);
    assert s[..|head|] == head;
    assert s[|head| + |sep|..] == tail;
  }

  // ---------------------------------------------------------------------
  // long.Parse
  // ---------------------------------------------------------------------

  const MinLong: int := -0x8000_0000_0000_0000
  const MaxLong: int := 0x7FFF_FFFF_FFFF_FFFF

  /** The white space `NumberStyles.AllowLeadingWhite`/`AllowTrailingWhite` skip. */
  predicate IsWhite(c: char) {
    c == ' ' || ('\t' <= c <= '\r')
  }

  predicate IsDigit(c: char) {
    '0' <= c <= '9'
  }

  predicate AllDigits(s: string) {
    forall i :: 0 <= i < |s| ==> IsDigit(s[i])
  }

  function TrimStart(s: string): (r: string)
    ensures |r| <= |s|
    ensures r == s[|s| - |r|..]
    ensures r != "" ==> !IsWhite(r[0])
    decreases |s|
  {
    if s != "" && IsWhite(s[0]) then TrimStart(s[1..]) else s
  }

  function TrimEnd(s: string): (r: string)
    ensures |r| <= |s|
    ensures r == s[..|r|]
    ensures r != "" ==> !IsWhite(r[|r| - 1])
    decreases |s|
  {
    if s != "" && IsWhite(s[|s| - 1]) then TrimEnd(s[..|s| - 1]) else s
  }

  /** The value of a string of decimal digits. */
  function DigitsValue(s: string): nat
    requires AllDigits(s)
    decreases |s|
  {
    if s == [] then 0 else DigitsValue(s[..|s| - 1]) * 10 + (s[|s| - 1] - '0') as int
  }

  /**
   * `long.Parse(s)`: optional white space, an optional `+` or `-`, at least
   * one decimal digit, optional white space, and a value that fits in 64 bits.
   * `None` is the FormatException or OverflowException the call throws.
   */
  function ParseLong(s: string): (r: Option<int>)
    ensures r.Some? ==> MinLong <= r.value <= MaxLong
  {
    ParseSigned(TrimEnd(TrimStart(s)))
  }

  /** An optional sign followed by digits only, within the 64-bit range. */
  function ParseSigned(t: string): (r: Option<int>)
    ensures r.Some? ==> MinLong <= r.value <= MaxLong
  {
    var negative := |t| > 0 && t[0] == '-';
    var digits := if |t| > 0 && (t[0] == '-' || t[0] == '+') then t[1..] else t;
    if digits == "" || !AllDigits(digits) then None
    else
      var v: int := if negative then -(DigitsValue(digits) as int) else DigitsValue(digits);
      if MinLong <= v <= MaxLong then Some(v) else None
  }

  /** The decimal digits of `n`, most significant first. */
  function NatDigits(n: nat): (r: string)
    ensures r != "" && AllDigits(r)
    decreases n
  {
    var last := ['0' + (n % 10) as char];
    if n < 10 then last else NatDigits(n / 10) + last
  }

  /** How a sender writes the timestamp field: `long.ToString()`. */
  function FormatLong(n: int): string {
    if n < 0 then "-" + NatDigits(-n) else NatDigits(n)
  }

  lemma {:induction false} DigitsValueOfNatDigits(n: nat)
    ensures DigitsValue(NatDigits(n)) == n
    decreases n
  {
    var s := NatDigits(n);
    if n >= 10 {
      DigitsValueOfNatDigits(n / 10);
      assert s[..|s| - 1] == NatDigits(n / 10);
    }
  }

  lemma TrimNoWhite(t: string)
    requires t != "" && !IsWhite(t[0]) && !IsWhite(t[|t| - 1])
    ensures TrimEnd(TrimStart(t)) == t
  {
  }

  lemma ParseSignedFormat(n: int)
    requires MinLong <= n <= MaxLong
    ensures ParseSigned(FormatLong(n)) == Some(n)
  {
    var m: nat := if n < 0 then -n else n;
    DigitsValueOfNatDigits(m);
    if n < 0 {
      assert FormatLong(n)[1..] == NatDigits(m);
    }
  }

  /** `long.Parse` reads back every 64-bit value written by `ToString`. */
  lemma ParseFormatLong(n: int)
    requires MinLong <= n <= MaxLong
    ensures ParseLong(FormatLong(n)) == Some(n)
  {
    var t := FormatLong(n);
    var d := NatDigits(if n < 0 then -n else n);
    assert IsDigit(d[|d| - 1]) && IsDigit(d[0]);
    assert t[|t| - 1] == d[|d| - 1];
    TrimNoWhite(t);
    ParseSignedFormat(n);
  }
}
