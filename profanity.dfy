/** What `replaceProfane` computes: the whitespace-separated words of a chirp,
    each one that is a denylisted word in any letter case replaced by a
    four-asterisk mask, rejoined with single spaces. Both copies of the
    routine (chirps.go and handlerValidateChirp.go) are proved to compute
    `Cleaned`; the properties of the filter are stated here about it. */
module Profanity {
  import opened GoStrings

  /** The mask put in place of a denylisted word. */
  const Grawlix: Bytes := Ascii("****")

  /** The denylist, in the order the outer loop visits it. */
  const Profanities: seq<Bytes> := [Ascii("kerfuffle"), Ascii("sharbert"), Ascii("fornax")]

  /** One word after filtering: either the word or the mask, never denylisted
      when lower-cased, and the word itself when it is not denylisted. A word
      stays a word and never grows. */
  function MaskWord(w: Bytes): (r: Bytes)
    ensures r == w || r == Grawlix
    ensures ToLower(r) !in Profanities
    ensures ToLower(w) !in Profanities ==> r == w
    ensures |r| <= |w|
    ensures IsWord(w) ==> IsWord(r)
  {
    GrawlixIsClean();
    ProfanitiesAreLong();
    if ToLower(w) in Profanities then Grawlix else w
  }

  /** Every word filtered: as many words as before, none of them denylisted
      when lower-cased, and words stay words. */
  function MaskAll(ws: seq<Bytes>): (ms: seq<Bytes>)
    ensures |ms| == |ws|
    ensures forall i :: 0 <= i < |ms| ==> ToLower(ms[i]) !in Profanities
    ensures (forall i :: 0 <= i < |ws| ==> IsWord(ws[i])) ==> forall i :: 0 <= i < |ms| ==> IsWord(ms[i])
  {
    seq(|ws|, i requires 0 <= i < |ws| => MaskWord(ws[i]))
  }

  /** The string `replaceProfane(s)` returns. It has no leading or trailing
      white space and its words are separated by exactly one space; it is never
      longer, in bytes, than `s`, since the mask is shorter than every
      denylisted word; and it is empty exactly when `s` is empty or all white
      space. */
  function Cleaned(s: Bytes): (r: Bytes)
    ensures SingleSpaced(r)
    ensures |r| <= |s|
    ensures r == [] <==> AllSpace(s)
  {
    var ms := MaskAll(Fields(s));
    JoinSingleSpaced(ms);
    JoinNoLongerThanSource(s, ms);
    FieldsEmptyIffBlank(s);
    Join(ms, [Space])
  }

  /** The mask is already lower case and is not on the denylist. */
  lemma GrawlixIsClean()
    ensures ToLower(Grawlix) == Grawlix
    ensures Grawlix !in Profanities
    ensures IsWord(Grawlix)
  {
    assert Grawlix[0] == 42;
    assert Profanities[0][0] == 107 && Profanities[1][0] == 115 && Profanities[2][0] == 102;
  }

  /** Every denylisted word is at least six bytes long, and is a word. */
  lemma ProfanitiesAreLong()
    ensures forall p :: p in Profanities ==> |p| >= 6 && IsWord(p)
  {
    assert |Profanities[0]| == 9 && |Profanities[1]| == 8 && |Profanities[2]| == 6;
    assert IsWord(Profanities[0]) && IsWord(Profanities[1]) && IsWord(Profanities[2]);
  }

  /** A field after the outer loop of `replaceProfane` has run for the first `p` denylisted words. */
  ghost function MaskedBy(w: Bytes, p: nat): (r: Bytes)
    requires p <= |Profanities|
  {
    if ToLower(w) in Profanities[..p] then Grawlix else w
  }

  /** One pass of the inner loop over a field moves it from `p` to `p + 1` words.
      A field already masked stays masked, as the mask matches no denylisted word. */
  lemma MaskedByStep(w: Bytes, p: nat)
    requires p < |Profanities|
    ensures MaskedBy(w, p + 1) ==
      if ToLower(MaskedBy(w, p)) == Profanities[p] then Grawlix else MaskedBy(w, p)
  {
    GrawlixIsClean();
    assert Profanities[..p + 1] == Profanities[..p] + [Profanities[p]];
  }

  /** After the whole denylist every field is filtered. */
  lemma MaskedByAll(s: Bytes, fields: seq<Bytes>, split: seq<Bytes>)
    requires fields == Fields(s) && |split| == |fields|
    requires forall k :: 0 <= k < |split| ==> split[k] == MaskedBy(fields[k], |Profanities|)
    ensures Join(split, [Space]) == Cleaned(s)
  {
    assert Profanities[..|Profanities|] == Profanities;
    assert split == MaskAll(fields);
  }

  /** Per-word mapping: the output splits into exactly as many words as the
      input, and the i-th output word is the mask when the i-th input word,
      lower-cased, is on the denylist, and the input word unchanged otherwise. */
  lemma {:induction false} CleanedWordByWord(s: Bytes)
    ensures |Fields(Cleaned(s))| == |Fields(s)|
    ensures forall i :: 0 <= i < |Fields(s)| ==>
      Fields(Cleaned(s))[i] == (if ToLower(Fields(s)[i]) in Profanities then Grawlix else Fields(s)[i])
  {
    var ms := MaskAll(Fields(s));
    assert forall i :: 0 <= i < |ms| ==> IsWord(ms[i]);
    FieldsOfJoin(ms);
  }

  /** No word of the output, lower-cased, is on the denylist. */
  lemma {:induction false} NoProfanityLeft(s: Bytes)
    ensures forall w :: w in Fields(Cleaned(s)) ==> ToLower(w) !in Profanities
  {
    CleanedWordByWord(s);
    forall w | w in Fields(Cleaned(s)) ensures ToLower(w) !in Profanities {
      var i :| 0 <= i < |Fields(Cleaned(s))| && Fields(Cleaned(s))[i] == w;
      assert w == MaskWord(Fields(s)[i]);
    }
  }

  /** Filtering twice is filtering once: a mask never matches the denylist. */
  lemma {:induction false} CleanedIdempotent(s: Bytes)
    ensures Cleaned(Cleaned(s)) == Cleaned(s)
  {
    var ms := MaskAll(Fields(s));
    assert Cleaned(s) == Join(ms, [Space]);
    CleanJoinIsFixed(ms);
  }

  /** Words none of which is denylisted, joined with single spaces, pass the
      filter unchanged. */
  lemma CleanJoinIsFixed(ws: seq<Bytes>)
    requires forall i :: 0 <= i < |ws| ==> IsWord(ws[i]) && ToLower(ws[i]) !in Profanities
    ensures Cleaned(Join(ws, [Space])) == Join(ws, [Space])
  {
    FieldsOfJoin(ws);
    assert MaskAll(ws) == ws;
  }

  /** Every denylisted word is already lower case. */
  lemma ProfanitiesAreLower()
    ensures forall p :: p in Profanities ==> ToLower(p) == p
  {
    assert ToLower(Profanities[0]) == Profanities[0];
    assert ToLower(Profanities[1]) == Profanities[1];
    assert ToLower(Profanities[2]) == Profanities[2];
  }

  /** The match is case-insensitive: a word is replaced exactly when it equals
      a denylisted word up to ASCII letter case. */
  lemma {:induction false} MaskedIffEqualFold(w: Bytes)
    ensures MaskWord(w) != w <==> exists p :: p in Profanities && EqualFold(w, p)
  {
    ProfanitiesAreLower();
    GrawlixIsClean();
    if ToLower(w) in Profanities {
      ToLowerIdempotent(w);
      ToLowerEqualIff(w, ToLower(w));
      assert EqualFold(w, ToLower(w));
    } else {
      forall p | p in Profanities ensures !EqualFold(w, p) {
        ToLowerEqualIff(w, p);
      }
    }
  }

  /** Matching ignores letter case but must cover the whole word: "KerFuffle"
      is masked, "kerfuffle!" is kept. */
  lemma WholeWordCaseInsensitive()
    ensures MaskWord(Ascii("KerFuffle")) == Grawlix
    ensures MaskWord(Ascii("kerfuffle!")) == Ascii("kerfuffle!")
  {
    assert ToLower(Ascii("KerFuffle")) == Profanities[0];
    var p := Ascii("kerfuffle!");
    assert |ToLower(p)| == 10;
    assert |Profanities[0]| == 9 && |Profanities[1]| == 8 && |Profanities[2]| == 6;
  }

  /** A sample chirp, "This is a kerfuffle opinion I need to share", given as
      its words joined by single spaces: only the denylisted word is masked. */
  lemma SampleChirp()
    ensures Cleaned(Join([Ascii("This"), Ascii("is"), Ascii("a"), Ascii("kerfuffle"), Ascii("opinion"),
                          Ascii("I"), Ascii("need"), Ascii("to"), Ascii("share")], [Space]))
         == Join([Ascii("This"), Ascii("is"), Ascii("a"), Grawlix, Ascii("opinion"),
                  Ascii("I"), Ascii("need"), Ascii("to"), Ascii("share")], [Space])
  {
    var ws := [Ascii("This"), Ascii("is"), Ascii("a"), Ascii("kerfuffle"), Ascii("opinion"),
               Ascii("I"), Ascii("need"), Ascii("to"), Ascii("share")];
    forall i | 0 <= i < |ws| ensures IsWord(ws[i]) { }
    FieldsOfJoin(ws);
    assert ToLower(ws[3]) == Profanities[0];
    forall i | 0 <= i < |ws| && i != 3 ensures ToLower(ws[i]) !in Profanities {
      assert |Profanities[0]| == 9 && |Profanities[1]| == 8 && |Profanities[2]| == 6;
    }
    assert MaskAll(ws) == [ws[0], ws[1], ws[2], Grawlix, ws[4], ws[5], ws[6], ws[7], ws[8]];
  }
}
