/** System.Guid as far as the API key checks need it: Guid.TryParse, which
    decides whether an API key is well formed, and Guid.ToString, the form
    in which the gallery hands keys out. */
module Guids {
  import opened Wrappers
  import Text

  type Nibble = x: int | 0 <= x < 16

  /** A GUID as its 32 hexadecimal digits, in the order they are written. */
  type Guid = s: seq<Nibble> | |s| == 32 witness seq(32, _ => 0)

  function HexDigit(c: char): (r: Option<Nibble>)
    ensures r.Some? <==> ('0' <= c <= '9' || 'a' <= c <= 'f' || 'A' <= c <= 'F')
  {
    if '0' <= c <= '9' then Some(c as int - '0' as int)
    else if 'a' <= c <= 'f' then Some(c as int - 'a' as int + 10)
    else if 'A' <= c <= 'F' then Some(c as int - 'A' as int + 10)
    else None
  }

  /** The lower-case digit Guid.ToString writes for a nibble. */
  function HexChar(n: Nibble): (c: char)
    ensures HexDigit(c) == Some(n)
    ensures !Text.IsWhiteSpace(c) && c != '-'
  {
    if n < 10 then ('0' as int + n) as char else ('a' as int + n - 10) as char
  }

  /** The digits of s, if every character of s is a hexadecimal digit. */
  function HexRun(s: string): (r: Option<seq<Nibble>>)
    ensures r.Some? <==> forall i :: 0 <= i < |s| ==> HexDigit(s[i]).Some?
    ensures r.Some? ==> |r.value| == |s| && forall i :: 0 <= i < |s| ==> Some(r.value[i]) == HexDigit(s[i])
  {
    if s == [] then Some([])
    else match (HexDigit(s[0]), HexRun(s[1..]))
      case (Some(d), Some(rest)) => Some([d] + rest)
      case _ => None
  }

  /** The positions of the hyphens in the 36-character "D" form. */
  predicate HyphensAt(t: string)
    requires |t| == 36
  {
    t[8] == '-' && t[13] == '-' && t[18] == '-' && t[23] == '-'
  }

  /** The 32 digit characters of a 36-character "D" form, hyphens removed. */
  function DigitsOfDashed(t: string): (d: string)
    requires |t| == 36
    ensures |d| == 32
  {
    t[..8] + t[9..13] + t[14..18] + t[19..23] + t[24..]
  }

  function ParseDashed(t: string): (r: Option<Guid>)
    requires |t| == 36
  {
    if !HyphensAt(t) then None
    else HexRun(DigitsOfDashed(t))
  }

  /** Guid.TryParse(s, out g): after trimming white space, s must be 32 hex
      digits ("N"), the hyphenated 8-4-4-4-12 form ("D"), or that form in
      braces ("B") or parentheses ("P"); digits may be of either case. */
  function TryParse(s: string): (r: Option<Guid>)
    ensures r.Some? ==> 32 <= |Text.Trim(s)| <= 38
  {
    ParseTrimmed(Text.Trim(s))
  }

  function ParseTrimmed(t: string): (r: Option<Guid>)
    ensures r.Some? ==> 32 <= |t| <= 38
  {
    if |t| == 32 then HexRun(t)
    else if |t| == 36 then ParseDashed(t)
    else if |t| == 38 && ((t[0] == '{' && t[37] == '}') || (t[0] == '(' && t[37] == ')')) then
      ParseDashed(t[1..37])
    else None
  }

  predicate IsWellFormed(s: string) {
    TryParse(s).Some?
  }

  /** Guid.ToString("N"): 32 lower-case digits. */
  function FormatN(g: Guid): (s: string)
    ensures |s| == 32
  {
    seq(32, i requires 0 <= i < 32 => HexChar(g[i]))
  }

  /** Guid.ToString() (the "D" form), the way API keys are shown to users. */
  function FormatD(g: Guid): (s: string)
    ensures |s| == 36
  {
    var n := FormatN(g);
    n[..8] + "-" + n[8..12] + "-" + n[12..16] + "-" + n[16..20] + "-" + n[20..]
  }

  lemma HexRunOfFormatN(g: Guid)
    ensures HexRun(FormatN(g)) == Some(g)
  {
    var n := FormatN(g);
    var r := HexRun(n);
    assert r.Some?;
    assert r.value == g by {
      forall i | 0 <= i < 32 ensures r.value[i] == g[i] {
        assert Some(r.value[i]) == HexDigit(n[i]) == Some(g[i]);
      }
    }
  }

  /** Every key written with Guid.ToString("N") is accepted and read back unchanged. */
  lemma {:induction false} ParseFormatN(g: Guid)
    ensures TryParse(FormatN(g)) == Some(g)
  {
    var n := FormatN(g);
    assert n[0] == HexChar(g[0]) && n[31] == HexChar(g[31]);
    Text.TrimUnchanged(n);
    HexRunOfFormatN(g);
    assert ParseTrimmed(n) == HexRun(n);
  }

  lemma DashedOfFormatD(g: Guid)
    ensures HyphensAt(FormatD(g))
    ensures DigitsOfDashed(FormatD(g)) == FormatN(g)
  {
    var n := FormatN(g);
    var d := FormatD(g);
    assert d[..8] == n[..8];
    assert d[9..13] == n[8..12];
    assert d[14..18] == n[12..16];
    assert d[19..23] == n[16..20];
    assert d[24..] == n[20..];
    assert n == n[..8] + n[8..12] + n[12..16] + n[16..20] + n[20..];
  }

  /** Every key the gallery issues (Guid.ToString()) is accepted and read back unchanged. */
  lemma {:induction false} ParseFormatD(g: Guid)
    ensures TryParse(FormatD(g)) == Some(g)
  {
    var d := FormatD(g);
    assert d[0] == FormatN(g)[0] && d[35] == FormatN(g)[31];
    Text.TrimUnchanged(d);
    ParseDashedFormatD(g);
  }

  lemma ParseDashedFormatD(g: Guid)
    ensures ParseDashed(FormatD(g)) == Some(g)
  {
    DashedOfFormatD(g);
    HexRunOfFormatN(g);
  }

  /** The braced form "{...}" of an issued key is accepted too, as the same GUID. */
  lemma {:induction false} ParseFormatB(g: Guid)
    ensures TryParse("{" + FormatD(g) + "}") == Some(g)
  {
    var d := FormatD(g);
    var b := "{" + d + "}";
    assert |b| == 38 && b[0] == '{' && b[37] == '}';
    assert b[1..37] == d;
    Text.TrimUnchanged(b);
    ParseDashedFormatD(g);
    assert ParseDashed(b[1..37]) == Some(g);
  }

}
