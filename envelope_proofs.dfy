/**
 * What `HandleAddDevice` reads from a message: the timestamp and header
 * fields, for messages written the way a peer writes them.
 */
module EnvelopeProofs {
  import opened Wrappers
  import opened Text
  import opened Registry

  lemma FormatLongHasNoComma(n: int)
    ensures Free(FormatLong(n), FieldSeparator)
  {
    var t := FormatLong(n);
    var d := NatDigits(if n < 0 then -n else n);
    forall i: nat | i < |t| ensures t[i] != ',' {
      if n < 0 {
        if i > 0 { assert t[i] == d[i - 1]; }
      } else {
        assert t[i] == d[i];
      }
    }
    forall i: nat ensures !OccursAt(t, FieldSeparator, i) {
      if i + 1 <= |t| {
        assert t[i..i + 1][0] == t[i];
      }
    }
  }

  /** A text without the separator splits into itself alone. */
  lemma SplitFree(s: string, sep: string)
    requires sep != "" && Free(s, sep)
    ensures Split(s, sep) == [s]
  {
  }

  /**
   * A message written as `<timestamp>,<kind>` or `<timestamp>,<kind>,<rest>`
   * has the header `kind`, whatever the 64-bit timestamp.
   */
  lemma EnvelopeOfHeader(timestamp: int, kind: string, rest: string)
    requires MinLong <= timestamp <= MaxLong && Free(kind, FieldSeparator)
    requires rest == "" || rest[0] == ','
    ensures EnvelopeOf(FormatLong(timestamp) + FieldSeparator + kind + rest) == Kind(kind)
  {
    var t := FormatLong(timestamp);
    FormatLongHasNoComma(timestamp);
    SplitFirst(t, FieldSeparator, kind + rest);
    assert t + FieldSeparator + kind + rest == t + FieldSeparator + (kind + rest);
    if rest == "" {
      assert kind + rest == kind;
      SplitFree(kind, FieldSeparator);
    } else {
      assert kind + rest == kind + FieldSeparator + rest[1..];
      SplitFirst(kind, FieldSeparator, rest[1..]);
    }
    ParseFormatLong(timestamp);
  }

  /** A bare number with no comma has no header: `HandleAddDevice` returns at the length check. */
  lemma EnvelopeOfBareTimestamp(message: string)
    requires Free(message, FieldSeparator) && ParseLong(message).Some?
    ensures EnvelopeOf(message) == Headerless
  {
    SplitFree(message, FieldSeparator);
  }
}
