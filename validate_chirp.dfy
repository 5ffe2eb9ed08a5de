/** handlerValidateChirp.go: its own copy of `replaceProfane` and the three-way
    decision of `handlerValidateChirp`, which only reports the cleaned body and
    stores nothing. */
module ValidateChirp {
  import opened GoStrings
  import Profanity
  import Chirps
  import opened Wrappers
  import opened HttpStatus

  /** This file's `replaceProfane`: the same loops as the copy in chirps.go, and
      so the same result on every input, `Profanity.Cleaned(s)`. */
  method ReplaceProfane(s: Bytes) returns (r: Bytes)
    ensures r == Profanity.Cleaned(s)
  {
    var grawlix := Profanity.Grawlix;
    var profanities := Profanity.Profanities;
    var fields := Fields(s);
    var split := new Bytes[|fields|](i requires 0 <= i < |fields| => fields[i]);
    for p := 0 to |profanities|
      invariant forall k :: 0 <= k < split.Length ==> split[k] == Profanity.MaskedBy(fields[k], p)
    {
      Chirps.MaskPass(split, fields, p, profanities[p], grawlix);
    }
    Profanity.MaskedByAll(s, fields, split[..]);
    r := Join(split[..], [Space]);
  }

  /** What `handlerValidateChirp` writes. */
  datatype Reply =
    | ErrorReply(status: nat, message: string)
    | CleanedReply(status: nat, cleanedBody: Bytes)

  /** The decision of `handlerValidateChirp` on the decoded body, `None` when
      the request is not valid JSON. */
  function Validate(decoded: Option<Bytes>): (r: Reply)
    ensures decoded.None? <==> r == ErrorReply(StatusInternalServerError, "Something went wrong")
    ensures decoded.Some? && |decoded.value| == 0 <==> r == ErrorReply(StatusBadRequest, "Chirp malformed")
    ensures decoded.Some? && |decoded.value| > Chirps.MaxChirpLength <==> r == ErrorReply(StatusBadRequest, "Chirp is too long")
    ensures r.CleanedReply? <==> decoded.Some? && 0 < |decoded.value| <= Chirps.MaxChirpLength
    ensures r.CleanedReply? ==> r.status == StatusOK && r.cleanedBody == Profanity.Cleaned(decoded.value)
  {
    match decoded
    case None => ErrorReply(StatusInternalServerError, "Something went wrong")
    case Some(body) =>
      if |body| == 0 then ErrorReply(StatusBadRequest, "Chirp malformed")
      else if |body| > Chirps.MaxChirpLength then ErrorReply(StatusBadRequest, "Chirp is too long")
      else CleanedReply(StatusOK, Profanity.Cleaned(body))
  }

  /** The gate is exact at both ends: no bytes and 141 bytes are refused, one and
      140 bytes pass. */
  lemma Boundaries(body: Bytes)
    ensures |body| == 0 ==> Validate(Some(body)).ErrorReply?
    ensures |body| == 1 || |body| == Chirps.MaxChirpLength ==> Validate(Some(body)).CleanedReply?
    ensures |body| == Chirps.MaxChirpLength + 1 ==> Validate(Some(body)) == ErrorReply(StatusBadRequest, "Chirp is too long")
  {
  }

  /** Every decoded body gets exactly one of the three replies. */
  lemma ExactlyOneOutcome(body: Bytes)
    ensures var r := Validate(Some(body));
      (if r == ErrorReply(StatusBadRequest, "Chirp malformed") then 1 else 0)
      + (if r == ErrorReply(StatusBadRequest, "Chirp is too long") then 1 else 0)
      + (if r.CleanedReply? then 1 else 0) == 1
  {
  }

  /** A reported cleaned body is within the limit, has no denylisted word left and
      is single-spaced; one of white space only is reported as the empty string. */
  lemma {:induction false} CleanedReplyIsClean(body: Bytes)
    requires 0 < |body| <= Chirps.MaxChirpLength
    ensures |Validate(Some(body)).cleanedBody| <= Chirps.MaxChirpLength
    ensures SingleSpaced(Validate(Some(body)).cleanedBody)
    ensures forall w :: w in Fields(Validate(Some(body)).cleanedBody) ==> ToLower(w) !in Profanity.Profanities
    ensures Validate(Some(body)).cleanedBody == [] <==> AllSpace(body)
  {
    Profanity.NoProfanityLeft(body);
  }

  /** The validation endpoint and the posting endpoint of chirps.go apply the
      same gate, and the body one reports is the body the other stores. */
  lemma AgreesWithPostChirp(body: Bytes, userId: Chirps.UserId, createChirp: Chirps.CreateChirpParams -> bool)
    ensures var stored := Chirps.PostChirp(Some(Chirps.ChirpMinimal(body, userId)), createChirp).insert;
      (Validate(Some(body)).CleanedReply? <==> stored.Some?) &&
      (stored.Some? ==> stored.value.body == Validate(Some(body)).cleanedBody)
  {
  }
}
