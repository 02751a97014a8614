/**
 The expiration rule of MagParse.processExpiration. A Track 1 expiry field is
 YYMM; the parser reports it as MMYY by exchanging the two halves of its first
 four chars.
 */
module Expiration {
  import opened Chars

  /** "YYMM..." to "MMYY": chars 2..4 followed by chars 0..2. */
  function SwapHalves(data: string): (r: string)
    requires |data| >= 4
    ensures |r| == 4
  {
    data[2..4] + data[..2]
  }

  /** A year and a month come out month first. */
  lemma MonthFirst(yy: string, mm: string, rest: string)
    requires |yy| == 2 && |mm| == 2
    ensures SwapHalves(yy + mm + rest) == mm + yy
  {
    var d := yy + mm + rest;
    assert d[2..4] == mm && d[..2] == yy;
  }

  /** The result is four chars, each taken from the first four of the field: digits stay digits. */
  lemma SwapKeepsDigits(data: string)
    requires |data| >= 4 && AllDigits(data[..4])
    ensures |SwapHalves(data)| == 4 && AllDigits(SwapHalves(data))
  {
    var r := SwapHalves(data);
    forall j | 0 <= j < 4 ensures IsDigit(r[j]) {
      assert r[j] == data[..4][if j < 2 then j + 2 else j - 2];
    }
  }

  /** The field "2901" (January 2029) is reported as "0129". */
  lemma ExampleExpiry()
    ensures SwapHalves("2901") == "0129"
  {
    MonthFirst("29", "01", "");
    assert "29" + "01" + "" == "2901";
    assert "01" + "29" == "0129";
  }
}
