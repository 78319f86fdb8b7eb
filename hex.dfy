/**
 * Bytes and their Base16 text forms (section 8 of RFC 4648), as the hash helpers
 * of both revisions produce them: the lowercase form that is compared, the
 * uppercase form of Convert.ToHexString, and the dash-separated uppercase form of
 * BitConverter.ToString together with the two string operations applied to them.
 */
module Hex {
  import opened Wrappers

  type byte = x: int | 0 <= x < 256

  const LowerDigits: string := "0123456789abcdef"
  const UpperDigits: string := "0123456789ABCDEF"

  predicate IsLowerHexChar(c: char) {
    '0' <= c <= '9' || 'a' <= c <= 'f'
  }

  predicate IsUpperHexChar(c: char) {
    '0' <= c <= '9' || 'A' <= c <= 'F'
  }

  /** The value of a lowercase hex digit: the inverse of indexing LowerDigits. */
  function NibbleOf(c: char): (v: nat)
    requires IsLowerHexChar(c)
    ensures v < 16 && LowerDigits[v] == c
  {
    if c <= '9' then c as int - '0' as int else c as int - 'a' as int + 10
  }

  lemma NibbleOfDigit(n: nat)
    requires n < 16
    ensures IsLowerHexChar(LowerDigits[n]) && NibbleOf(LowerDigits[n]) == n
  {
  }

  /** Lowercase Base16, most significant nibble first, no separators. */
  function LowerHex(bs: seq<byte>): (s: string)
    ensures |s| == 2 * |bs|
    ensures forall i :: 0 <= i < |s| ==> IsLowerHexChar(s[i])
  {
    if bs == [] then []
    else [LowerDigits[bs[0] / 16], LowerDigits[bs[0] % 16]] + LowerHex(bs[1..])
  }

  /** Decoding of lowercase Base16: the inverse of LowerHex. */
  function FromLowerHex(s: string): (r: Option<seq<byte>>)
    ensures r.Some? ==> 2 * |r.value| == |s|
  {
    if s == [] then Some([])
    else if |s| < 2 || !IsLowerHexChar(s[0]) || !IsLowerHexChar(s[1]) then None
    else
      var rest := FromLowerHex(s[2..]);
      if rest.None? then None
      else Some([NibbleOf(s[0]) * 16 + NibbleOf(s[1])] + rest.value)
  }

  /** The first two digits of LowerHex(bs) decode to bs[0]; the rest encodes the other bytes. */
  lemma LowerHexHead(bs: seq<byte>)
    requires bs != []
    ensures var s := LowerHex(bs);
            && IsLowerHexChar(s[0]) && IsLowerHexChar(s[1])
            && NibbleOf(s[0]) * 16 + NibbleOf(s[1]) == bs[0]
            && s[2..] == LowerHex(bs[1..])
  {
    var s := LowerHex(bs);
    assert s[0] == LowerDigits[bs[0] / 16] && s[1] == LowerDigits[bs[0] % 16];
    NibbleOfDigit(bs[0] / 16);
    NibbleOfDigit(bs[0] % 16);
  }

  lemma {:induction false} LowerHexRoundTrip(bs: seq<byte>)
    ensures FromLowerHex(LowerHex(bs)) == Some(bs)
  {
    if bs != [] {
      var s := LowerHex(bs);
      LowerHexHead(bs);
      LowerHexRoundTrip(bs[1..]);
      assert FromLowerHex(s[2..]) == Some(bs[1..]);
      assert FromLowerHex(s) == Some([bs[0]] + bs[1..]);
      assert [bs[0]] + bs[1..] == bs;
    }
  }

  /** Equal hex texts mean equal bytes, and conversely. */
  lemma LowerHexInjective(a: seq<byte>, b: seq<byte>)
    ensures LowerHex(a) == LowerHex(b) <==> a == b
  {
    LowerHexRoundTrip(a);
    LowerHexRoundTrip(b);
  }

  /** Convert.ToHexString: uppercase Base16 without separators. */
  function UpperHex(bs: seq<byte>): (s: string)
    ensures |s| == 2 * |bs|
    ensures forall i :: 0 <= i < |s| ==> IsUpperHexChar(s[i])
  {
    if bs == [] then []
    else [UpperDigits[bs[0] / 16], UpperDigits[bs[0] % 16]] + UpperHex(bs[1..])
  }

  /** BitConverter.ToString: uppercase digit pairs joined by '-'. */
  function DashedUpperHex(bs: seq<byte>): (s: string)
    ensures bs == [] ==> s == []
    ensures bs != [] ==> |s| == 3 * |bs| - 1
    ensures forall i :: 0 <= i < |s| ==> if i % 3 == 2 then s[i] == '-' else IsUpperHexChar(s[i])
  {
    if bs == [] then []
    else if |bs| == 1 then [UpperDigits[bs[0] / 16], UpperDigits[bs[0] % 16]]
    else
      var rest := DashedUpperHex(bs[1..]);
      var s := [UpperDigits[bs[0] / 16], UpperDigits[bs[0] % 16], '-'] + rest;
      assert forall i :: 3 <= i < |s| ==> s[i] == rest[i - 3] && (i % 3 == 2 <==> (i - 3) % 3 == 2);
      s
  }

  /** String.Replace(c, ""): every occurrence of c removed. */
  function Without(s: string, c: char): string {
    if s == [] then []
    else if s[0] == c then Without(s[1..], c)
    else [s[0]] + Without(s[1..], c)
  }

  function AsciiLower(c: char): char {
    if 'A' <= c <= 'Z' then (c as int - 'A' as int + 'a' as int) as char else c
  }

  /**
   * String.ToLowerInvariant on the characters it is applied to here (hex digits
   * and dashes): ASCII letters are lowered, everything else is kept.
   */
  function ToLowerInvariant(s: string): string {
    if s == [] then [] else [AsciiLower(s[0])] + ToLowerInvariant(s[1..])
  }

  lemma UpperDigitLowered(n: nat)
    requires n < 16
    ensures AsciiLower(UpperDigits[n]) == LowerDigits[n]
  {
  }

  /** Convert.ToHexString(h).ToLowerInvariant() is the lowercase Base16 of h. */
  lemma {:induction false} LoweredUpperHex(bs: seq<byte>)
    ensures ToLowerInvariant(UpperHex(bs)) == LowerHex(bs)
  {
    if bs != [] {
      var u := UpperHex(bs);
      assert u[1..][1..] == UpperHex(bs[1..]);
      UpperDigitLowered(bs[0] / 16);
      UpperDigitLowered(bs[0] % 16);
      LoweredUpperHex(bs[1..]);
    }
  }

  /** BitConverter.ToString(h).Replace("-", "") is Convert.ToHexString(h). */
  lemma {:induction false} UndashedIsUpperHex(bs: seq<byte>)
    ensures Without(DashedUpperHex(bs), '-') == UpperHex(bs)
  {
    if |bs| == 1 {
      var d := DashedUpperHex(bs);
      assert d[0] != '-' && d[1] != '-';
      assert d[1..][1..] == [] && bs[1..] == [];
      calc {
        Without(d, '-');
        [d[0]] + Without(d[1..], '-');
        [d[0]] + ([d[1]] + Without(d[1..][1..], '-'));
        [d[0], d[1]] + UpperHex(bs[1..]);
      }
    } else if |bs| > 1 {
      var d := DashedUpperHex(bs);
      assert d[0] != '-' && d[1] != '-' && d[2] == '-';
      assert d[1..][1..][1..] == DashedUpperHex(bs[1..]);
      UndashedIsUpperHex(bs[1..]);
      calc {
        Without(d, '-');
        [d[0]] + Without(d[1..], '-');
        [d[0]] + ([d[1]] + Without(d[1..][1..], '-'));
        [d[0]] + ([d[1]] + Without(d[1..][1..][1..], '-'));
        [d[0], d[1]] + UpperHex(bs[1..]);
      }
    }
  }
}
