TestResult.DisplayName,TestResult.Outcome,TestResult.Duration,TestResult.ResourceCount,RandomSeed
Text.JoinSplit (correctness),Passed,00:00:03.8354226,5867378,0
Text.LinesRejoin (correctness),Passed,00:00:00.8320514,2821378,0
Text.Join (well-formedness),Passed,00:00:00.2448192,14536,0
Text.Split (well-formedness),Passed,00:00:00.2431754,19802,0
Text.SplitJoin (correctness),Passed,00:00:00.1717627,45615,0
Text.CanonicalNumeral (correctness),Passed,00:00:00.1189135,368832,0
Text.NatToString (well-formedness),Passed,00:00:00.0851257,52944,0
Text.CarriageReturnsSurviveSplit (correctness),Passed,00:00:00.0846998,127621,0
Text.Lines (well-formedness),Passed,00:00:00.0751631,44496,0
Text.SplitAtFirstSeparator (correctness),Passed,00:00:00.0659395,85855,0
Text.SplitPiecesAvoidSeparator (correctness),Passed,00:00:00.0615411,35328,0
Text.JoinDropsEmptyLast (correctness),Passed,00:00:00.0605394,70341,0
Text.LinesRejoin (well-formedness),Passed,00:00:00.0604744,34076,0
Text.SplitWithoutSeparator (correctness),Passed,00:00:00.0564936,47129,0
Text.CarriageReturnsSurviveSplit (well-formedness),Passed,00:00:00.0509620,15817,0
Text.JoinDropsEmptyLast (well-formedness),Passed,00:00:00.0496447,12563,0
Text.NumeralRoundTrip (correctness),Passed,00:00:00.0436007,42760,0
Text.EndsWithSeparator (correctness),Passed,00:00:00.0375594,21666,0
Text.DigitValue (well-formedness),Passed,00:00:00.0334553,9278,0
Text.NumeralValue (well-formedness),Passed,00:00:00.0319665,21326,0
Text.CanonicalNumeral (well-formedness),Passed,00:00:00.0292656,22087,0
Text.SplitJoin (well-formedness),Passed,00:00:00.0287359,16926,0
Text.NumeralRoundTrip (well-formedness),Passed,00:00:00.0257949,21449,0
Text.NumeralPositive (correctness),Passed,00:00:00.0248322,25350,0
Text.NumeralPositive (well-formedness),Passed,00:00:00.0231216,14233,0
Text.SplitPiecesAvoidSeparator (well-formedness),Passed,00:00:00.0225828,15045,0
Text.StripCarriageReturn (well-formedness),Passed,00:00:00.0224074,12270,0
Text.IsNumeral (well-formedness),Passed,00:00:00.0221213,11055,0
Text.EndsWithSeparator (well-formedness),Passed,00:00:00.0200764,14916,0
Text.DivModTen (correctness),Passed,00:00:00.0173596,10249,0
Text.DivModTen (well-formedness),Passed,00:00:00.0136071,4014,0
Text.DigitChar (well-formedness),Passed,00:00:00.0133793,11651,0
