/** The absent-or-present value used for what a JSON reader hands back:
    `None` stands for the `null` that the reader returns for a JSON null. */
module Wrappers {
  datatype Option<+T> = None | Some(value: T)
}

/** The JSON converter between the `Completeness` enum and its single-letter
    wire code (`BricklinkSharp.Client.Json.CompletenessStringConverter`).

    Decoding (`Read`) is a switch over the token string with a permissive
    default: "C", "B" and "S" are recognised, and everything else, including
    a JSON null, the empty string and lower-case letters, decodes to
    `Complete`. Encoding (`Write`) emits whatever the `ToDomainString`
    extension returns; that extension is not part of this model, so it is a
    parameter here and every round-trip fact is stated in terms of it. */
module CompletenessStringConverter {
  import opened Wrappers

  /** Condition of a lot: complete, incomplete, or factory sealed. */
  datatype Completeness = Complete | Incomplete | Sealed

  /** A JSON value as the writer emits it and the reader sees it. */
  datatype JsonToken = JsonString(text: string) | JsonNull

  /** What the reader's `GetString()` returns for the current token:
      the text of a string token, and `null` for a JSON null. */
  function GetString(token: JsonToken): (r: Option<string>)
    ensures r.None? <==> token.JsonNull?
    ensures token.JsonString? ==> r == Some(token.text)
  {
    match token
    case JsonString(s) => Some(s)
    case JsonNull => None
  }

  /** Decodes the string the reader produced. Only the exact, upper-case,
      one-letter codes "B" and "S" select `Incomplete` and `Sealed`; every
      other input, "C" included, yields `Complete`. */
  function Read(token: Option<string>): (r: Completeness)
    ensures r == Incomplete <==> token == Some("B")
    ensures r == Sealed <==> token == Some("S")
    ensures r == Complete <==> token != Some("B") && token != Some("S")
  {
    match token
    case None => Complete
    case Some(s) =>
      if s == "C" then Complete
      else if s == "B" then Incomplete
      else if s == "S" then Sealed
      else Complete
  }

  /** Encodes `value` by appending to the tokens already `written` exactly
      one string token, the text `toDomainString(value)`, and nothing else. */
  function Write(written: seq<JsonToken>, toDomainString: Completeness -> string,
                 value: Completeness): (r: seq<JsonToken>)
    ensures |r| == |written| + 1
    ensures r[..|written|] == written
    ensures r[|written|] == JsonString(toDomainString(value))
  {
    written + [JsonString(toDomainString(value))]
  }

  /** The mapping the wire protocol expects of `ToDomainString`; the
      extension itself is not part of this model, so this is an assumption
      about it. Each code it gives decodes back to its value. */
  function AssumedDomainString(value: Completeness): (r: string)
    ensures Read(Some(r)) == value
  {
    match value
    case Complete => "C"
    case Incomplete => "B"
    case Sealed => "S"
  }

  /** `toDomainString` produces codes that `Read` maps back to the value. */
  ghost predicate RoundTrips(toDomainString: Completeness -> string)
  {
    forall v :: Read(Some(toDomainString(v))) == v
  }

  /** The three recognised codes decode to their values. */
  lemma ReadKnownCodes()
    ensures Read(Some("C")) == Complete
    ensures Read(Some("B")) == Incomplete
    ensures Read(Some("S")) == Sealed
  {
  }

  /** Decoding is total and permissive: null, the empty string, other
      letters, other casing, padding and longer strings all fall through to
      `Complete` and never to `Incomplete` or `Sealed`. */
  lemma ReadDefaultsToComplete(token: Option<string>)
    requires token !in {Some("C"), Some("B"), Some("S")}
    ensures Read(token) == Complete
  {
  }

  /** Case-sensitive and exact: the lower-case, padded or extended forms of
      the codes are not recognised. */
  lemma ReadIsExact()
    ensures Read(None) == Complete
    ensures Read(Some("")) == Complete
    ensures Read(Some("b")) == Complete && Read(Some("s")) == Complete
    ensures Read(Some(" B")) == Complete && Read(Some("S ")) == Complete
    ensures Read(Some("CB")) == Complete && Read(Some("BS")) == Complete
  {
  }

  /** Every value is the decoding of some token. */
  lemma ReadIsSurjective(v: Completeness)
    ensures exists t: Option<string> :: Read(t) == v
  {
    var t := Some(AssumedDomainString(v));
    assert Read(t) == v;
  }

  /** Decoding forgets information: two different tokens decode alike. */
  lemma ReadIsNotInjective()
    ensures exists t1: Option<string>, t2: Option<string> :: t1 != t2 && Read(t1) == Read(t2)
  {
    assert Some("C") != Some("X") && Read(Some("C")) == Read(Some("X"));
  }

  /** So no encoder undoes decoding on arbitrary tokens: for every encoder
      some string token is not reproduced by encoding what it decodes to. */
  lemma ReencodeIsNotIdentity(toDomainString: Completeness -> string)
    ensures exists s: string :: toDomainString(Read(Some(s))) != s
  {
    if toDomainString(Complete) == "X" {
      assert toDomainString(Read(Some("Y"))) != "Y";
    } else {
      assert toDomainString(Read(Some("X"))) != "X";
    }
  }

  /** The output of `Write` depends on the value and the encoding alone:
      the same value gives the same new token whatever was written before. */
  lemma WriteDependsOnlyOnValue(w1: seq<JsonToken>, w2: seq<JsonToken>,
                                toDomainString: Completeness -> string, v: Completeness)
    ensures Write(w1, toDomainString, v)[|w1|..] == Write(w2, toDomainString, v)[|w2|..]
              == [JsonString(toDomainString(v))]
  {
  }

  /** Exactly which encodings make `Read` undo them: "B" for `Incomplete`,
      "S" for `Sealed`, and anything but those two for `Complete`. */
  lemma RoundTripsIff(toDomainString: Completeness -> string)
    ensures RoundTrips(toDomainString) <==>
              && toDomainString(Incomplete) == "B"
              && toDomainString(Sealed) == "S"
              && toDomainString(Complete) != "B"
              && toDomainString(Complete) != "S"
  {
  }

  /** Under the assumed `ToDomainString`, reading back what `Write` emitted
      gives the value that was written, whatever preceded it. */
  lemma WriteThenReadRoundTrip(written: seq<JsonToken>, value: Completeness)
    ensures RoundTrips(AssumedDomainString)
    ensures Read(GetString(Write(written, AssumedDomainString, value)[|written|])) == value
  {
  }

  /** Under the assumed `ToDomainString`, the known codes survive decoding
      and re-encoding, and every other token is replaced by "C". */
  lemma ReencodeNormalises(token: Option<string>)
    ensures token in {Some("C"), Some("B"), Some("S")} ==>
              Some(AssumedDomainString(Read(token))) == token
    ensures token !in {Some("C"), Some("B"), Some("S")} ==>
              AssumedDomainString(Read(token)) == "C" && Some(AssumedDomainString(Read(token))) != token
  {
  }

  /** For any encoding that round-trips, decoding a re-encoded token gives
      the same value as decoding the original: decoding is a fixed point of
      encode-then-decode. This is a corollary of `RoundTrips` taken at the
      decoded value; what it adds about `Read` is carried by `RoundTripsIff`. */
  lemma ReadAfterReencodeIsStable(toDomainString: Completeness -> string, token: Option<string>)
    requires RoundTrips(toDomainString)
    ensures Read(Some(toDomainString(Read(token)))) == Read(token)
  {
  }
}
