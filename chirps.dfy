/** chirps.go: the profanity filter `replaceProfane` as the source runs it (masking
    the fields of the body in place, one denylisted word at a time) and the
    length gate of `handlerPostChirp` that decides what is stored. */
module Chirps {
  import opened GoStrings
  import Profanity
  import opened Wrappers
  import opened HttpStatus

  /** `replaceProfane`: split into fields, overwrite every field whose lower-case
      form equals a denylisted word with the mask, join with single spaces. */
  method ReplaceProfane(s: Bytes) returns (r: Bytes)
    ensures r == Profanity.Cleaned(s)
  {
    var grawlix := Profanity.Grawlix;
    var profanities := Profanity.Profanities;
    var fields := Fields(s);
    var split := new Bytes[|fields|](i requires 0 <= i < |fields| => fields[i]);
    for p := 0 to |profanities|
      invariant forall k :: 0 <= k < split.Length ==> split[k] == Profanity.MaskedBy(fields[k], p)
    {
      MaskPass(split, fields, p, profanities[p], grawlix);
    }
    Profanity.MaskedByAll(s, fields, split[..]);
    r := Join(split[..], [Space]);
  }

  /** The inner loop of `replaceProfane`: overwrite with the mask every field
      whose lower-case form is `prof`, the `p`-th denylisted word. Fields masked
      by the earlier words stay masked. */
  method MaskPass(split: array<Bytes>, ghost fields: seq<Bytes>, ghost p: nat, prof: Bytes, grawlix: Bytes)
    requires p < |Profanity.Profanities| && prof == Profanity.Profanities[p] && grawlix == Profanity.Grawlix
    requires split.Length == |fields|
    requires forall k :: 0 <= k < split.Length ==> split[k] == Profanity.MaskedBy(fields[k], p)
    modifies split
    ensures forall k :: 0 <= k < split.Length ==> split[k] == Profanity.MaskedBy(fields[k], p + 1)
  {
    for i := 0 to split.Length
      invariant forall k :: 0 <= k < i ==> split[k] == Profanity.MaskedBy(fields[k], p + 1)
      invariant forall k :: i <= k < split.Length ==> split[k] == Profanity.MaskedBy(fields[k], p)
    {
      var word := split[i];
      Profanity.MaskedByStep(fields[i], p);
      if ToLower(word) == prof {
        split[i] := grawlix;
      }
    }
  }

  /** The most bytes a chirp body may have. */
  const MaxChirpLength: nat := 140

  type UserId = nat

  /** The JSON request of `handlerPostChirp`, which is also what it echoes back. */
  datatype ChirpMinimal = ChirpMinimal(body: Bytes, userId: UserId)

  /** The row the handler asks the database to insert. */
  datatype CreateChirpParams = CreateChirpParams(body: Bytes, userId: UserId)

  datatype Reply =
    | ErrorReply(status: nat, message: string)
    | ChirpReply(status: nat, chirp: ChirpMinimal)

  /** What one request does: the insert it asks of the database, if any, and
      the reply it writes. */
  datatype PostOutcome = PostOutcome(insert: Option<CreateChirpParams>, reply: Reply)

  /** `handlerPostChirp`. `decoded` is the decoded request body, `None` when it
      is not valid JSON; `createChirp` says whether the database accepts an
      insert. */
  function PostChirp(decoded: Option<ChirpMinimal>, createChirp: CreateChirpParams -> bool): (o: PostOutcome)
    // A body is only ever stored when it passed the gate, and what is stored is the filtered body.
    ensures o.insert.Some? <==> decoded.Some? && 0 < |decoded.value.body| <= MaxChirpLength
    ensures o.insert.Some? ==>
      o.insert.value == CreateChirpParams(Profanity.Cleaned(decoded.value.body), decoded.value.userId)
    ensures decoded.None? ==> o.reply == ErrorReply(StatusInternalServerError, "Something went wrong")
    ensures decoded.Some? && |decoded.value.body| == 0 ==>
      o.reply == ErrorReply(StatusBadRequest, "Chirp malformed")
    ensures decoded.Some? && |decoded.value.body| > MaxChirpLength ==>
      o.reply == ErrorReply(StatusBadRequest, "Chirp is too long")
    // Success replies echo the filtered body and the requested user id.
    ensures o.reply.ChirpReply? <==> o.insert.Some? && createChirp(o.insert.value)
    ensures o.reply.ChirpReply? ==>
      o.reply == ChirpReply(StatusCreated, ChirpMinimal(o.insert.value.body, o.insert.value.userId))
    ensures o.insert.Some? && !createChirp(o.insert.value) ==>
      o.reply == ErrorReply(StatusBadRequest, "Couldn't process the chirp into database")
  {
    if decoded.None? then
      PostOutcome(None, ErrorReply(StatusInternalServerError, "Something went wrong"))
    else
      var chirp := decoded.value;
      if |chirp.body| == 0 then
        PostOutcome(None, ErrorReply(StatusBadRequest, "Chirp malformed"))
      else if |chirp.body| > MaxChirpLength then
        PostOutcome(None, ErrorReply(StatusBadRequest, "Chirp is too long"))
      else
        var cleaned := chirp.(body := Profanity.Cleaned(chirp.body));
        var params := CreateChirpParams(cleaned.body, cleaned.userId);
        if !createChirp(params) then
          PostOutcome(Some(params), ErrorReply(StatusBadRequest, "Couldn't process the chirp into database"))
        else
          PostOutcome(Some(params), ChirpReply(StatusCreated, cleaned))
  }

  /** Whatever is stored fits the limit: it is no longer than the raw body,
      which passed the gate. */
  lemma StoredBodyFits(decoded: Option<ChirpMinimal>, createChirp: CreateChirpParams -> bool)
    ensures var o := PostChirp(decoded, createChirp);
      o.insert.Some? ==> |o.insert.value.body| <= |decoded.value.body| <= MaxChirpLength
  {
  }

  /** The stored body is a clean chirp: no denylisted word survives and the white
      space is normalised. */
  lemma {:induction false} StoredBodyIsClean(decoded: Option<ChirpMinimal>, createChirp: CreateChirpParams -> bool)
    ensures var o := PostChirp(decoded, createChirp);
      o.insert.Some? ==>
        SingleSpaced(o.insert.value.body) &&
        forall w :: w in Fields(o.insert.value.body) ==> ToLower(w) !in Profanity.Profanities
  {
    if decoded.Some? {
      Profanity.NoProfanityLeft(decoded.value.body);
    }
  }

  /** A body of 1 to 140 bytes of white space passes the gate and is stored empty. */
  lemma BlankBodyStoredEmpty(body: Bytes, userId: UserId, createChirp: CreateChirpParams -> bool)
    requires 0 < |body| <= MaxChirpLength && AllSpace(body)
    ensures PostChirp(Some(ChirpMinimal(body, userId)), createChirp).insert == Some(CreateChirpParams([], userId))
  {
  }
}
