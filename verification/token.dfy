/**
 The file-name token written for one day: the prefix `FP_`, the year as
 `str(year)`, then month and day each as `str(...).zfill(2)`. `Decode` reads a
 token back; it is the partner every formatting property is proved against.
 */
module FileToken {
  import opened Options
  import opened Calendar
  import opened Decimal

  const Prefix: string := "FP_"

  /** The token for day `d`. */
  function Token(d: Date): (r: string)
    ensures 7 <= |r| && r[..3] == Prefix
    ensures d.month < 100 && d.day < 100 ==> |r| == 7 + |Show(d.year)|
  {
    Prefix + Show(d.year) + Pad2(d.month) + Pad2(d.day)
  }

  /**
   Reads a token: `FP_`, then digits only, of which the last four are month
   and day and the rest is the year, written without a leading zero. Anything
   else, or a date that does not exist, is rejected.
   */
  function Decode(t: string): (r: Option<Date>)
    ensures r.Some? ==> Valid(r.value)
  {
    if |t| < 8 || t[..3] != Prefix || !(forall i :: 3 <= i < |t| ==> IsDigit(t[i])) || t[3] == '0' then None
    else
      var d := Date(Parse(t[3..|t| - 4]), Parse(t[|t| - 4..|t| - 2]), Parse(t[|t| - 2..]));
      if Valid(d) then Some(d) else None
  }

  /** The four parts of a concatenation can be sliced back out of it. */
  lemma Slices(p: string, y: string, m: string, d: string)
    ensures var t := p + y + m + d;
      && t[..|p|] == p
      && t[|p|..] == y + m + d
      && t[|p|..|t| - |m| - |d|] == y
      && t[|t| - |m| - |d|..|t| - |d|] == m
      && t[|t| - |d|..] == d
  {
  }

  /**
   For an existing day the token is `FP_`, the digits of the year, then
   exactly two digits of month and two of day; everything after the prefix
   is a digit.
   */
  lemma TokenLayout(d: Date)
    requires Valid(d)
    ensures var t := Token(d);
      && |t| == 7 + |Show(d.year)|
      && t[..3] == Prefix
      && t[3..|t| - 4] == Show(d.year)
      && t[|t| - 4..|t| - 2] == Pad2(d.month)
      && t[|t| - 2..] == Pad2(d.day)
      && (forall i :: 3 <= i < |t| ==> IsDigit(t[i]))
  {
    Pad2TwoDigits(d.month);
    Pad2TwoDigits(d.day);
    var y, m, dd := Show(d.year), Pad2(d.month), Pad2(d.day);
    Slices(Prefix, y, m, dd);
    assert AllDigits(y + m + dd);
  }

  /** Formatting followed by decoding gives the day back, for every year from 1 on. */
  lemma DecodeToken(d: Date)
    requires Valid(d)
    ensures Decode(Token(d)) == Some(d)
  {
    TokenLayout(d);
    Pad2TwoDigits(d.month);
    Pad2TwoDigits(d.day);
    ParseShow(d.year);
  }

  /** Whatever decodes to a day is exactly that day's token: `Decode` accepts no other spelling. */
  lemma DecodeCanonical(t: string, d: Date)
    requires Decode(t) == Some(d)
    ensures Token(d) == t
  {
    var ys, ms, ds := t[3..|t| - 4], t[|t| - 4..|t| - 2], t[|t| - 2..];
    ShowParse(ys);
    Pad2Parse(ms);
    Pad2Parse(ds);
    assert t == t[..3] + ys + ms + ds;
  }

  /** A string decodes to `d` exactly when it is the token of the existing day `d`. */
  lemma DecodeIff(t: string, d: Date)
    ensures Decode(t) == Some(d) <==> Valid(d) && Token(d) == t
  {
    if Valid(d) && Token(d) == t {
      DecodeToken(d);
    }
    if Decode(t) == Some(d) {
      DecodeCanonical(t, d);
    }
  }

  /** Distinct days never share a token. */
  lemma TokenInjective(a: Date, b: Date)
    requires Valid(a) && Valid(b) && Token(a) == Token(b)
    ensures a == b
  {
    DecodeToken(a);
    DecodeToken(b);
  }

  /**
   With a four-digit year the token is eleven characters, `FP_YYYYMMDD`, and
   characters 3-6, 7-8 and 9-10 read back as year, month and day.
   */
  lemma TokenFixedWidth(d: Date)
    requires Valid(d) && 1000 <= d.year <= 9999
    ensures var t := Token(d);
      && |t| == 11
      && t[..3] == Prefix
      && (forall i :: 3 <= i < 11 ==> IsDigit(t[i]))
      && Parse(t[3..7]) == d.year
      && Parse(t[7..9]) == d.month
      && Parse(t[9..11]) == d.day
  {
    ShowFourDigits(d.year);
    TokenLayout(d);
    DecodeToken(d);
    var t := Token(d);
    assert t[9..11] == t[|t| - 2..];
  }
}
