/**
 $brotli_ratio, read off the counters of a finished body filter.
 */
module Report {
  import opened Links
  import opened FilterState
  import opened BodyFilter
  import Ratio

  /** What reading the variable gives; the program does not look at its divisor. */
  datatype Reading = NotFound | Text(text: string) | DividesByZero

  /**
   Nothing without a success; else body size over response size, rounded half up to hundredths and
   written as a numeral with two decimals.  The division is
   undefined exactly for a response of a multiple of 2^64 bytes.
   */
  method RatioOf(ctx: Ctx) returns (r: Reading)
    requires ctx.Valid()
    ensures r.NotFound? <==> !ctx.success
    ensures r.DividesByZero? <==> ctx.success && |Delivered(ctx.log)| % 0x1_0000_0000_0000_0000 == 0
    ensures r.Text? ==>
              && |r.text| <= Ratio.INT64_LEN + 3
              && |r.text| >= 4
              && var p := |r.text| - 3;
                 && r.text[p] == '.' && Ratio.AreDigits(r.text[..p]) && Ratio.AreDigits(r.text[p + 1..])
                 && (r.text[0] == '0' ==> p == 1)
                 && var word := 0x1_0000_0000_0000_0000;
                    var body, response := |Payload(ctx.appended)| % word, |Delivered(ctx.log)| % word;
                    response > 0
                    && 100 * Ratio.ReadOn(r.text[..p], 0) + Ratio.ReadOn(r.text[p + 1..], 0)
                         == (200 * body + response) / (2 * response)
  {
    hide Stream.Valid, Ratio.Printed, Ratio.ReadOn, Ratio.AreDigits;
    if !ctx.success {
      return NotFound;
    }
    SuccessHasOutput(ctx.Snap(), ctx.conf);
    CounterNonzero(ctx.Snap(), ctx.conf);
    if ctx.bytesOut == 0 {
      return DividesByZero;
    }
    var whole, frac := Ratio.RatioVariable(ctx.bytesIn, ctx.bytesOut);
    Ratio.PrintedFits(whole, frac);
    Ratio.PrintedReads(whole, frac);
    r := Text(Ratio.Printed(whole, frac));
  }
}
