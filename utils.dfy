/** utils.py: the sRGB transfer functions and the other results-table
    builder. The power-law branches (`** 2.4` and `** (1/2.4)`) are passed
    in as functions: `decodePow(t)` stands for t to the power 2.4 and
    `encodePow(t)` for t to the power 1/2.4. */
module Utils {
  import opened Wrappers
  import opened Tables
  import TableBuilder

  /** The branch point utils.py uses in both directions. */
  const LinearLimit := 0.0031308
  /** The decoding branch point of IEC 61966-2-1 (sRGB). */
  const StandardDecodeLimit := 0.04045

  /** `srgb_to_linear` on one value, as written: the linear branch is taken
      up to 0.0031308. It agrees with the standard's decoding everywhere
      except on (0.0031308, 0.04045]. */
  function SrgbToLinear(x: real, decodePow: real -> real): (r: real)
    ensures x <= LinearLimit || StandardDecodeLimit < x ==> r == SrgbToLinearStandard(x, decodePow)
  {
    if x <= LinearLimit then x / 12.92 else decodePow((x + 0.055) / 1.055)
  }

  /** `linear_to_srgb` on one value. Its linear branch maps [0, 0.0031308]
      onto [0, 0.0031308 * 12.92], which reaches past 0.0031308. */
  function LinearToSrgb(x: real, encodePow: real -> real): (r: real)
    ensures 0.0 <= x <= LinearLimit ==> 0.0 <= r <= LinearLimit * 12.92
  {
    if x <= LinearLimit then x * 12.92 else 1.055 * encodePow(x) - 0.055
  }

  /** The sRGB decoding of IEC 61966-2-1, whose linear branch reaches up to
      0.04045: the corrected counterpart of `SrgbToLinear`; only
      `SrgbToLinear`'s contract and `StandardLinearRoundTrip` use it. */
  function SrgbToLinearStandard(x: real, decodePow: real -> real): real
  {
    if x <= StandardDecodeLimit then x / 12.92 else decodePow((x + 0.055) / 1.055)
  }

  /** What the 2.4 power satisfies on (0, 1]: it is positive and its square
      is at least the fifth power (t^4.8 >= t^5 there). */
  ghost predicate IsDecodePower(decodePow: real -> real)
  {
    forall t :: 0.0 < t <= 1.0 ==> 0.0 < decodePow(t) && decodePow(t) * decodePow(t) >= t * t * t * t * t
  }

  lemma DecodePowerAt(decodePow: real -> real, t: real)
    requires IsDecodePower(decodePow) && 0.0 < t <= 1.0
    ensures decodePow(t) * decodePow(t) >= t * t * t * t * t
  {
  }

  /** Both directions map 0 to 0, and on the linear branch encoding undoes
      the as-written decoding. */
  lemma LinearBranchRoundTrip(x: real, decodePow: real -> real, encodePow: real -> real)
    ensures SrgbToLinear(0.0, decodePow) == 0.0 && LinearToSrgb(0.0, encodePow) == 0.0
    ensures 0.0 <= x <= LinearLimit ==> LinearToSrgb(SrgbToLinear(x, decodePow), encodePow) == x
  {
  }

  /** The encoder's linear branch produces values up to 0.0031308 * 12.92,
      above the as-written decoder's branch point: the value 0.0032, the
      encoding of the linear value 0.0032 / 12.92, is decoded through the
      power branch and does not come back. */
  lemma AsWrittenDecoderBreaksRoundTrip(decodePow: real -> real, encodePow: real -> real)
    requires IsDecodePower(decodePow)
    ensures var y := 0.0032 / 12.92;
            && 0.0 <= y <= LinearLimit
            && LinearToSrgb(y, encodePow) == 0.0032
            && SrgbToLinear(LinearToSrgb(y, encodePow), decodePow) != y
  {
    var y := 0.0032 / 12.92;
    var t := (0.0032 + 0.055) / 1.055;
    assert LinearToSrgb(y, encodePow) == 0.0032;
    var d := decodePow(t);
    DecodePowerAt(decodePow, t);
    assert t * t * t * t * t > y * y;
  }

  /** With the standard's branch point, decoding undoes encoding on the
      whole linear branch, and encoding undoes decoding on every value the
      linear branch can produce. */
  lemma StandardLinearRoundTrip(x: real, decodePow: real -> real, encodePow: real -> real)
    ensures 0.0 <= x <= LinearLimit ==> SrgbToLinearStandard(LinearToSrgb(x, encodePow), decodePow) == x
    ensures 0.0 <= x <= LinearLimit * 12.92 ==> LinearToSrgb(SrgbToLinearStandard(x, decodePow), encodePow) == x
  {
    if 0.0 <= x <= LinearLimit {
      assert x * 12.92 <= StandardDecodeLimit;
    }
  }

  const Names: seq<string> := ["Blackness", "Color Shift", "Gloss Factor", "Median a*", "Median b*"]

  /** `build_results_table(blackness, color_shift, a_shift, b_shift, gloss)`:
      gloss comes last and is stored under "Gloss Factor". */
  function BuildResultsTable(blackness: seq<real>, colorShift: seq<real>, aShift: seq<real>,
                             bShift: seq<real>, gloss: seq<real>): Result<Table, string>
  {
    MakeTable(PartNumbers(|blackness|), Names, [blackness, colorShift, gloss, aShift, bShift])
  }

  /** The two builders make the same table from the same metrics handed
      over in their own argument orders (same success, part numbers and
      rows), and differ only in the name of the gloss column. */
  lemma BuildersAgree(blackness: seq<real>, colorShift: seq<real>, aShift: seq<real>,
                      bShift: seq<real>, gloss: seq<real>)
    ensures var u := BuildResultsTable(blackness, colorShift, aShift, bShift, gloss);
            var tb := TableBuilder.BuildResultsTable(blackness, colorShift, gloss, aShift, bShift);
            && (u.Success? <==> tb.Success?)
            && (u.Success? ==>
                  && u.value.partNumbers == tb.value.partNumbers
                  && u.value.columns == tb.value.columns
                  && u.value.names == tb.value.names[2 := "Gloss Factor"])
  {
  }

  /** Handing this builder the other builder's argument order (gloss third)
      files the b* shifts under "Gloss Factor" and the gloss scores under
      "Median a*". */
  lemma SwappedArgumentsMisfile(blackness: seq<real>, colorShift: seq<real>, gloss: seq<real>,
                                aShift: seq<real>, bShift: seq<real>)
    requires BuildResultsTable(blackness, colorShift, gloss, aShift, bShift).Success?
    ensures var t := BuildResultsTable(blackness, colorShift, gloss, aShift, bShift).value;
            Column(t, "Gloss Factor") == Some(bShift) && Column(t, "Median a*") == Some(gloss)
  {
    var columns := [blackness, colorShift, bShift, gloss, aShift];
    NamesDistinct();
    ColumnOfDistinct(Names, columns, 2);
    ColumnOfDistinct(Names, columns, 3);
  }

  /** The five column names of `utils.build_results_table` are pairwise
      different. */
  lemma NamesDistinct()
    ensures DistinctNames(Names)
  {
    assert Names[0][0] != Names[3][0] && Names[0][0] != Names[4][0];
    assert Names[3][7] != Names[4][7];
  }
}
