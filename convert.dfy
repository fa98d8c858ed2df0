/**
 * The `/convert` handler: validates a JSON body with `input`, `inputType`
 * and `outputType`, and converts an English number word from "zero" to
 * "ten" to its decimal string, ignoring case.
 */
module Convert {

  import opened Wrappers
  import opened Json
  import Ascii

  /** The number words, in the order of the values they name. */
  const Words: seq<string> :=
    ["zero", "one", "two", "three", "four", "five", "six", "seven", "eight", "nine", "ten"]

  /** Word to decimal string, as the handler's lookup table holds it. */
  const NumberMap: map<string, string> := map[
    "zero" := "0",
    "one" := "1",
    "two" := "2",
    "three" := "3",
    "four" := "4",
    "five" := "5",
    "six" := "6",
    "seven" := "7",
    "eight" := "8",
    "nine" := "9",
    "ten" := "10"
  ]

  const NoInput := "No input provided"
  const MissingParameters := "Missing required parameters"
  const ConversionFailed := "Conversion failed"
  const UnsupportedConversion := "Unsupported conversion"

  /**
   * What the handler answers: a JSON object with `error` and `result` and
   * an HTTP status, or an exception that escapes the handler (calling
   * `.lower()` on a value that is not a string), which the web framework
   * turns into its own 500 response.
   */
  datatype Reply =
    | Reply(error: Option<string>, result: Option<string>, status: int)
    | Uncaught

  function Fail(message: string): Reply
  {
    Reply(Some(message), None, 400)
  }

  /** `convert()`: `body` is what `request.get_json()` returned. */
  function Convert(body: Option<map<string, Value>>): (r: Reply)
    ensures r.Reply? ==> (r.error.Some? <==> r.result.None?)
    ensures r.Reply? ==> (r.status == 200 <==> r.result.Some?)
    ensures r.Reply? && r.status != 200 ==> r.status == 400
  {
    if body.None? || body.value == map[] then Fail(NoInput)
    else Respond(Get(body.value, "input"), Get(body.value, "inputType"), Get(body.value, "outputType"))
  }

  /** The handler after its first check, on the three values it reads. */
  function Respond(input: Value, inputType: Value, outputType: Value): (r: Reply)
    ensures r.Reply? ==> (r.error.Some? <==> r.result.None?)
    ensures r.Reply? ==> (r.status == 200 <==> r.result.Some?)
    ensures r.Reply? && r.status != 200 ==> r.status == 400
  {
    if input == Null || inputType == Null || outputType == Null then Fail(MissingParameters)
    else if !inputType.Str? then Uncaught
    else if Ascii.Lower(inputType.s) != "text" then Fail(UnsupportedConversion)
    else if !outputType.Str? then Uncaught
    else if Ascii.Lower(outputType.s) != "decimal" then Fail(UnsupportedConversion)
    else if !input.Str? then Uncaught
    else Lookup(input.s)
  }

  /** The case-insensitive table lookup of a text-to-decimal request. */
  function Lookup(word: string): (r: Reply)
    ensures r.Reply? && (r.status == 200 <==> Ascii.Lower(word) in NumberMap)
  {
    var key := Ascii.Lower(word);
    if key in NumberMap then Reply(None, Some(NumberMap[key]), 200)
    else Fail(ConversionFailed)
  }

  // ---------------------------------------------------------------------
  // An independent account of the table
  // ---------------------------------------------------------------------

  function DigitChar(d: nat): (c: char)
    requires d < 10
    ensures Ascii.IsDigit(c) && c as int - '0' as int == d
  {
    ('0' as int + d) as char
  }

  /** The decimal numeral of `n`, without leading zeros. */
  function Decimal(n: nat): (s: string)
    ensures s != [] && forall i :: 0 <= i < |s| ==> Ascii.IsDigit(s[i])
    decreases n
  {
    if n < 10 then [DigitChar(n)] else Decimal(n / 10) + [DigitChar(n % 10)]
  }

  /** The value of a numeral of digits. */
  function DecimalValue(s: string): (n: nat)
    requires forall i :: 0 <= i < |s| ==> Ascii.IsDigit(s[i])
    decreases |s|
  {
    if s == [] then 0
    else
      var last := s[|s| - 1];
      assert Ascii.IsDigit(last);
      10 * DecimalValue(s[..|s| - 1]) + (last as int - '0' as int)
  }

  /** Reading back a numeral gives the number it was written from. */
  lemma {:induction false} DecimalRoundTrip(n: nat)
    ensures DecimalValue(Decimal(n)) == n
    decreases n
  {
    if n >= 10 {
      DecimalRoundTrip(n / 10);
      var s := Decimal(n);
      assert s[..|s| - 1] == Decimal(n / 10);
    }
  }

  /** The table's keys are exactly the eleven words. */
  lemma NumberMapKeys()
    ensures forall w :: w in NumberMap <==> w in Words
  {
    assert NumberMap.Keys == {"zero", "one", "two", "three", "four", "five", "six", "seven", "eight", "nine", "ten"};
  }

  /** Each word maps to the numeral of its position. */
  lemma NumberMapIsDecimal()
    ensures forall i :: 0 <= i < |Words| ==> Words[i] in NumberMap && NumberMap[Words[i]] == Decimal(i)
    ensures forall i :: 0 <= i < |Words| ==> DecimalValue(NumberMap[Words[i]]) == i
  {
    forall i | 0 <= i < |Words|
      ensures Words[i] in NumberMap && NumberMap[Words[i]] == Decimal(i)
      ensures DecimalValue(NumberMap[Words[i]]) == i
    {
      NumberMapKeys();
      if i == 10 {
        assert Decimal(10) == Decimal(1) + [DigitChar(0)];
      }
      DecimalRoundTrip(i);
    }
  }

  // ---------------------------------------------------------------------
  // Properties of the handler
  // ---------------------------------------------------------------------

  lemma NoBodyRejected(body: Option<map<string, Value>>)
    requires body.None? || body.value == map[]
    ensures Convert(body) == Reply(Some(NoInput), None, 400)
  {
  }

  /** A non-empty body is answered from its three keys alone. */
  lemma ReadsThreeKeys(data: map<string, Value>)
    requires data != map[]
    ensures Convert(Some(data)) ==
      Respond(Get(data, "input"), Get(data, "inputType"), Get(data, "outputType"))
  {
  }

  /** Any of the three keys absent (or null) is reported as missing. */
  lemma MissingParameterRejected(input: Value, inputType: Value, outputType: Value)
    requires input == Null || inputType == Null || outputType == Null
    ensures Respond(input, inputType, outputType) == Reply(Some(MissingParameters), None, 400)
  {
  }

  /**
   * With the three values present as strings, the answer is "Unsupported
   * conversion" exactly when the pair is not text to decimal, in any case.
   */
  lemma OnlyTextToDecimal(input: string, inputType: string, outputType: string)
    ensures Respond(Str(input), Str(inputType), Str(outputType)) == Fail(UnsupportedConversion) <==>
      Ascii.Lower(inputType) != "text" || Ascii.Lower(outputType) != "decimal"
  {
  }

  /** Every word of the table, in any case, converts to its numeral with status 200. */
  lemma KnownWordConverts(word: string, i: nat)
    requires i < |Words| && Ascii.Lower(word) == Words[i]
    ensures Lookup(word) == Reply(None, Some(Decimal(i)), 200)
    ensures DecimalValue(Lookup(word).result.value) == i
  {
    NumberMapIsDecimal();
  }

  /** Any other word fails with "Conversion failed" and no result. */
  lemma UnknownWordFails(word: string)
    requires forall i :: 0 <= i < |Words| ==> Ascii.Lower(word) != Words[i]
    ensures Lookup(word) == Reply(Some(ConversionFailed), None, 400)
  {
    NumberMapKeys();
  }

  /** A text-to-decimal request, the type names in any case, reaches the lookup. */
  lemma TextToDecimalLooksUp(input: string, inputType: string, outputType: string)
    requires Ascii.Lower(inputType) == "text" && Ascii.Lower(outputType) == "decimal"
    ensures Respond(Str(input), Str(inputType), Str(outputType)) == Lookup(input)
  {
  }

  /** The lookup ignores case: an input and its lower case get the same answer. */
  lemma InputCaseIgnored(input: string, inputType: Value, outputType: Value)
    ensures Respond(Str(input), inputType, outputType) ==
            Respond(Str(Ascii.Lower(input)), inputType, outputType)
  {
    Ascii.LowerIdempotent(input);
  }

  /** So do the two type names. */
  lemma TypeNamesCaseIgnored(input: Value, inputType: string, outputType: string)
    ensures Respond(input, Str(inputType), Str(outputType)) ==
            Respond(input, Str(Ascii.Lower(inputType)), Str(Ascii.Lower(outputType)))
  {
    Ascii.LowerIdempotent(inputType);
    Ascii.LowerIdempotent(outputType);
  }
}
