/** The three routines of Go's `strings` package that the chirp filter relies on,
    `Fields`, `Join` and `ToLower`, over a Go string seen as its bytes.
    Only their ASCII behaviour is modelled: a byte at or above 0x80 is never
    whitespace and is left alone by `ToLower`. */
module GoStrings {

  /** A Go string is a sequence of bytes; `len` counts these bytes. */
  type Byte = b: int | 0 <= b < 256
  type Bytes = seq<Byte>

  const Space: Byte := 32

  /** The bytes of an ASCII string literal. */
  function Ascii(s: string): (r: Bytes)
    requires forall i :: 0 <= i < |s| ==> s[i] as int < 128
  {
    seq(|s|, i requires 0 <= i < |s| => s[i] as int)
  }

  /** The ASCII white space `strings.Fields` splits on: tab, newline, vertical tab,
      form feed, carriage return and space. */
  predicate IsSpace(b: Byte)
  {
    b == 9 || b == 10 || b == 11 || b == 12 || b == 13 || b == 32
  }

  /** A field: a non-empty run of bytes none of which is white space. */
  predicate IsWord(w: Bytes)
  {
    |w| > 0 && forall k :: 0 <= k < |w| ==> !IsSpace(w[k])
  }

  predicate AllSpace(s: Bytes)
  {
    forall k :: 0 <= k < |s| ==> IsSpace(s[k])
  }

  /** The length of the run of non-space bytes that `s` starts with. */
  function LeadingWord(s: Bytes): (n: nat)
    ensures n <= |s|
    ensures forall k :: 0 <= k < n ==> !IsSpace(s[k])
    ensures n < |s| ==> IsSpace(s[n])
  {
    if s == [] || IsSpace(s[0]) then 0 else 1 + LeadingWord(s[1..])
  }

  /** `strings.Fields`: the maximal runs of non-space bytes of `s`, in order. */
  function Fields(s: Bytes): (ws: seq<Bytes>)
    ensures forall i :: 0 <= i < |ws| ==> IsWord(ws[i])
    decreases |s|
  {
    if s == [] then []
    else if IsSpace(s[0]) then Fields(s[1..])
    else
      var n := LeadingWord(s);
      [s[..n]] + Fields(s[n..])
  }

  /** `strings.Join`: the elements of `ws` with `sep` between neighbours. The
      result starts with the first element and ends with the last. */
  function Join(ws: seq<Bytes>, sep: Bytes): (r: Bytes)
    ensures |ws| == 0 ==> r == []
    ensures |ws| > 0 ==> |r| >= |ws[0]| && r[..|ws[0]|] == ws[0]
    ensures |ws| > 0 ==> |r| >= |ws[|ws| - 1]| && r[|r| - |ws[|ws| - 1]|..] == ws[|ws| - 1]
  {
    if |ws| == 0 then []
    else if |ws| == 1 then ws[0]
    else
      var rest := Join(ws[1..], sep);
      assert ws[1..][|ws[1..]| - 1] == ws[|ws| - 1];
      ConcatEnds(ws[0], sep, rest, ws[|ws| - 1]);
      ws[0] + sep + rest
  }

  /** `a + sep + rest` starts with `a`, and ends with whatever `rest` ends with. */
  lemma ConcatEnds(a: Bytes, sep: Bytes, rest: Bytes, last: Bytes)
    requires |rest| >= |last| && rest[|rest| - |last|..] == last
    ensures |a + sep + rest| >= |a| && (a + sep + rest)[..|a|] == a
    ensures |a + sep + rest| >= |last| && (a + sep + rest)[|a + sep + rest| - |last|..] == last
  {
    var r := a + sep + rest;
    assert r[|r| - |last|..] == rest[|rest| - |last|..];
  }

  predicate IsUpper(b: Byte)
  {
    65 <= b <= 90
  }

  /** One byte lower-cased: an upper-case ASCII letter moves to its lower-case
      letter, 32 positions up; every other byte is kept. */
  function LowerByte(b: Byte): (r: Byte)
    ensures !IsUpper(r)
    ensures r == b || (IsUpper(b) && r == b + 32)
  {
    if IsUpper(b) then b + 32 else b
  }

  /** `strings.ToLower` on ASCII, byte by byte. */
  function ToLower(s: Bytes): (r: Bytes)
    ensures |r| == |s|
  {
    seq(|s|, i requires 0 <= i < |s| => LowerByte(s[i]))
  }

  /** No upper-case letter is left, and a byte changes only when it is an
      upper-case letter, into its lower-case letter. */
  lemma ToLowerChangesOnlyUpper(s: Bytes)
    ensures forall i :: 0 <= i < |s| ==> !IsUpper(ToLower(s)[i])
    ensures forall i :: 0 <= i < |s| ==> ToLower(s)[i] == s[i] || (IsUpper(s[i]) && ToLower(s)[i] == s[i] + 32)
  {
  }

  /** Two bytes are the same up to ASCII letter case. */
  predicate ByteEqualFold(x: Byte, y: Byte)
  {
    x == y || (IsUpper(x) && y == x + 32) || (IsUpper(y) && x == y + 32)
  }

  /** Two strings are the same up to ASCII letter case, byte by byte. */
  predicate EqualFold(a: Bytes, b: Bytes)
  {
    |a| == |b| && forall i :: 0 <= i < |a| ==> ByteEqualFold(a[i], b[i])
  }

  /** Lower-casing a lower-case string changes nothing. */
  lemma {:induction false} ToLowerOfLower(s: Bytes)
    requires forall i :: 0 <= i < |s| ==> !IsUpper(s[i])
    ensures ToLower(s) == s
  {
    assert forall i :: 0 <= i < |s| ==> ToLower(s)[i] == s[i];
  }

  /** Lower-casing twice is lower-casing once. */
  lemma {:induction false} ToLowerIdempotent(s: Bytes)
    ensures ToLower(ToLower(s)) == ToLower(s)
  {
    ToLowerChangesOnlyUpper(s);
    ToLowerOfLower(ToLower(s));
  }

  /** Two strings lower-case to the same string exactly when they are equal up
      to ASCII letter case. */
  lemma {:induction false} ToLowerEqualIff(a: Bytes, b: Bytes)
    ensures ToLower(a) == ToLower(b) <==> EqualFold(a, b)
  {
    if ToLower(a) == ToLower(b) {
      forall i | 0 <= i < |a| ensures ByteEqualFold(a[i], b[i]) {
        assert ToLower(a)[i] == ToLower(b)[i];
      }
    }
    if EqualFold(a, b) {
      forall i | 0 <= i < |a| ensures ToLower(a)[i] == ToLower(b)[i] {
        assert ByteEqualFold(a[i], b[i]);
      }
    }
  }

  /** A string in which white space occurs only as single space characters
      between two non-space bytes. */
  predicate SingleSpaced(r: Bytes)
  {
    (|r| > 0 ==> !IsSpace(r[0]) && !IsSpace(r[|r| - 1])) &&
    (forall k :: 0 <= k < |r| && IsSpace(r[k]) ==> r[k] == Space) &&
    (forall k :: 0 <= k < |r| - 1 && IsSpace(r[k]) ==> !IsSpace(r[k + 1]))
  }

  /** The leading word of a word followed by nothing or by white space is that word. */
  lemma LeadingWordOfWord(w: Bytes, t: Bytes)
    requires IsWord(w)
    requires t == [] || IsSpace(t[0])
    ensures LeadingWord(w + t) == |w|
  {
    assert forall k :: 0 <= k < |w| ==> (w + t)[k] == w[k];
    assert t != [] ==> (w + t)[|w|] == t[0];
  }

  /** A string starting with white space splits as the string without it. */
  lemma FieldsSkipsSpace(s: Bytes)
    requires |s| > 0 && IsSpace(s[0])
    ensures Fields(s) == Fields(s[1..])
  {
  }

  /** Fields of a string that is one word. */
  lemma FieldsOfWord(w: Bytes)
    requires IsWord(w)
    ensures Fields(w) == [w]
  {
    LeadingWordOfWord(w, []);
    assert w + [] == w;
    assert w[|w|..] == [];
  }

  /** Splitting a single-space join of words gives the words back. */
  lemma {:induction false} FieldsOfJoin(ws: seq<Bytes>)
    requires forall i :: 0 <= i < |ws| ==> IsWord(ws[i])
    ensures Fields(Join(ws, [Space])) == ws
  {
    if |ws| == 1 {
      FieldsOfWord(ws[0]);
    } else if |ws| > 1 {
      FieldsOfJoin(ws[1..]);
      FieldsOfJoinStep(ws);
    }
  }

  /** The inductive step: the first word, a space, and the rest. */
  lemma FieldsOfJoinStep(ws: seq<Bytes>)
    requires |ws| > 1 && IsWord(ws[0])
    requires Fields(Join(ws[1..], [Space])) == ws[1..]
    ensures Fields(Join(ws, [Space])) == ws
  {
    FieldsOfWordThenSpace(ws[0], Join(ws[1..], [Space]));
    assert [ws[0]] + ws[1..] == ws;
  }

  /** A word followed by a space splits into the word and the fields of what follows. */
  lemma FieldsOfWordThenSpace(w: Bytes, rest: Bytes)
    requires IsWord(w)
    ensures Fields(w + [Space] + rest) == [w] + Fields(rest)
  {
    var s := w + [Space] + rest;
    assert s == w + ([Space] + rest);
    LeadingWordOfWord(w, [Space] + rest);
    assert s[..|w|] == w;
    assert s[|w|..] == [Space] + rest;
    assert ([Space] + rest)[1..] == rest;
    FieldsSkipsSpace([Space] + rest);
  }

  /** `s` with the white space at both ends dropped and every inner run of
      white space replaced by one space, read byte by byte. `started` says a
      non-space byte has been output; `gap` says white space has been read
      since then. */
  function SqueezeFrom(s: Bytes, started: bool, gap: bool): (r: Bytes)
    decreases |s|
  {
    if s == [] then []
    else if IsSpace(s[0]) then SqueezeFrom(s[1..], started, started)
    else (if gap then [Space] else []) + [s[0]] + SqueezeFrom(s[1..], true, false)
  }

  function Squeeze(s: Bytes): (r: Bytes)
  {
    SqueezeFrom(s, false, false)
  }

  /** Inside a word the scan copies the rest of the word and then goes on as
      after white space. */
  lemma {:induction false} SqueezeInWord(s: Bytes)
    ensures SqueezeFrom(s, true, false) == s[..LeadingWord(s)] + SqueezeFrom(s[LeadingWord(s)..], true, true)
    decreases |s|
  {
    if s != [] && !IsSpace(s[0]) {
      var t := s[1..];
      SqueezeInWord(t);
      assert s[..LeadingWord(s)] == [s[0]] + t[..LeadingWord(t)];
      assert s[LeadingWord(s)..] == t[LeadingWord(t)..];
    }
  }

  /** The fields of a string that starts with a word, joined: that word, then
      the rest as it reads after white space. */
  lemma JoinFieldsAtWord(s: Bytes)
    requires s != [] && !IsSpace(s[0])
    ensures Join(Fields(s), [Space]) == s[..LeadingWord(s)] + GapThenFields(s[LeadingWord(s)..])
  {
    var n := LeadingWord(s);
    var ws := [s[..n]] + Fields(s[n..]);
    assert Fields(s) == ws;
    assert ws[0] == s[..n] && ws[1..] == Fields(s[n..]);
  }

  /** The joined fields of `s` when no field is output yet: nothing for no
      field, and otherwise a space before them. */
  function GapThenFields(s: Bytes): (r: Bytes)
  {
    if Fields(s) == [] then [] else [Space] + Join(Fields(s), [Space])
  }

  /** Reading a leading word copies it and leaves the scan after white space. */
  lemma WordCopied(s: Bytes)
    requires s != [] && !IsSpace(s[0])
    ensures [s[0]] + SqueezeFrom(s[1..], true, false) == s[..LeadingWord(s)] + SqueezeFrom(s[LeadingWord(s)..], true, true)
  {
    SqueezeInWord(s);
    assert SqueezeFrom(s, true, false) == [s[0]] + SqueezeFrom(s[1..], true, false);
  }

  /** The step both inductions below share: a leading word is copied, and the
      scan goes on past it as after white space. */
  lemma WordThenGap(s: Bytes)
    requires s != [] && !IsSpace(s[0])
    requires SqueezeFrom(s[LeadingWord(s)..], true, true) == GapThenFields(s[LeadingWord(s)..])
    ensures [s[0]] + SqueezeFrom(s[1..], true, false) == Join(Fields(s), [Space])
  {
    WordCopied(s);
    JoinFieldsAtWord(s);
  }

  /** After white space that follows a word, the scan gives a space and the
      rest of the fields joined, or nothing when no field is left. */
  lemma {:induction false} SqueezeAfterGap(s: Bytes)
    ensures SqueezeFrom(s, true, true) == GapThenFields(s)
    decreases |s|
  {
    if s != [] {
      if IsSpace(s[0]) {
        SqueezeAfterGap(s[1..]);
        FieldsSkipsSpace(s);
      } else {
        SqueezeAfterGap(s[LeadingWord(s)..]);
        WordThenGap(s);
        GapBeforeWord(s);
      }
    }
  }

  /** After white space, a word is output with one space before it. */
  lemma GapBeforeWord(s: Bytes)
    requires s != [] && !IsSpace(s[0])
    ensures SqueezeFrom(s, true, true) == [Space] + ([s[0]] + SqueezeFrom(s[1..], true, false))
    ensures GapThenFields(s) == [Space] + Join(Fields(s), [Space])
  {
    assert Fields(s)[0] == s[..LeadingWord(s)];
  }

  /** The scan from the start gives the fields joined with single spaces. */
  lemma {:induction false} ScanIsJoinedFields(s: Bytes)
    ensures SqueezeFrom(s, false, false) == Join(Fields(s), [Space])
    decreases |s|
  {
    if s != [] {
      if IsSpace(s[0]) {
        ScanIsJoinedFields(s[1..]);
        FieldsSkipsSpace(s);
        assert SqueezeFrom(s, false, false) == SqueezeFrom(s[1..], false, false);
      } else {
        SqueezeAfterGap(s[LeadingWord(s)..]);
        WordThenGap(s);
        assert SqueezeFrom(s, false, false) == [s[0]] + SqueezeFrom(s[1..], true, false);
      }
    }
  }

  /** `strings.Fields` cuts `s` at its white space and nowhere else: joining its
      fields with single spaces gives `s` squeezed. Since the fields are words,
      this fixes them (see `FieldsOfSqueeze`). */
  lemma FieldsJoinIsSqueeze(s: Bytes)
    ensures Join(Fields(s), [Space]) == Squeeze(s)
  {
    ScanIsJoinedFields(s);
  }

  /** A string and its squeezed form have the same fields. */
  lemma FieldsOfSqueeze(s: Bytes)
    ensures Fields(Squeeze(s)) == Fields(s)
  {
    FieldsJoinIsSqueeze(s);
    assert Squeeze(s) == Join(Fields(s), [Space]);
    FieldsOfJoin(Fields(s));
  }

  /** The bytes of " a  \t b " squeezed are those of "a b". */
  lemma SqueezeRuns()
    ensures Squeeze([32, 97, 32, 32, 9, 32, 98, 32]) == [97, 32, 98]
  {
    assert SqueezeFrom([32], true, false) == [];
    assert SqueezeFrom([98, 32], true, true) == [32, 98];
    assert SqueezeFrom([32, 98, 32], true, true) == [32, 98];
    assert SqueezeFrom([9, 32, 98, 32], true, true) == [32, 98];
    assert SqueezeFrom([32, 9, 32, 98, 32], true, true) == [32, 98];
    assert SqueezeFrom([32, 32, 9, 32, 98, 32], true, false) == [32, 98];
    assert SqueezeFrom([97, 32, 32, 9, 32, 98, 32], false, false) == [97, 32, 98];
  }

  /** "a b" has the fields "a" and "b". */
  lemma FieldsOfTwoWords(t: Bytes, ws: seq<Bytes>)
    requires t == [97, 32, 98] && ws == [[97], [98]]
    ensures Fields(t) == ws
  {
    assert IsWord(ws[0]) && IsWord(ws[1]);
    assert forall i :: 0 <= i < |ws| ==> IsWord(ws[i]);
    FieldsOfJoin(ws);
    assert Join(ws, [Space]) == ws[0] + [Space] + ws[1] == t;
  }

  /** Runs of white space of any length and kind separate words and are never
      part of one: " a  \t b " has the fields "a" and "b". */
  lemma FieldsAcrossRuns(s: Bytes, ws: seq<Bytes>)
    requires s == [32, 97, 32, 32, 9, 32, 98, 32] && ws == [[97], [98]]
    ensures Fields(s) == ws
  {
    SqueezeRuns();
    FieldsOfSqueeze(s);
    FieldsOfTwoWords(Squeeze(s), ws);
  }

  /** A word, a space and a non-empty single-spaced string make a single-spaced string. */
  lemma SingleSpacedStep(w: Bytes, j: Bytes)
    requires IsWord(w) && SingleSpaced(j) && |j| > 0
    ensures SingleSpaced(w + [Space] + j)
  {
    var r := w + [Space] + j;
    forall k | 0 <= k < |r|
      ensures r[k] == (if k < |w| then w[k] else if k == |w| then Space else j[k - |w| - 1])
    {
    }
  }

  /** Joining words with single spaces gives a single-spaced string. */
  lemma {:induction false} JoinSingleSpaced(ws: seq<Bytes>)
    requires forall i :: 0 <= i < |ws| ==> IsWord(ws[i])
    ensures SingleSpaced(Join(ws, [Space]))
  {
    if |ws| == 1 {
    } else if |ws| > 1 {
      var j := Join(ws[1..], [Space]);
      JoinSingleSpaced(ws[1..]);
      assert |j| >= |ws[1..][0]| > 0;
      SingleSpacedStep(ws[0], j);
      assert Join(ws, [Space]) == ws[0] + [Space] + j;
    }
  }

  /** A string has no fields exactly when it is all white space. */
  lemma {:induction false} FieldsEmptyIffBlank(s: Bytes)
    ensures Fields(s) == [] <==> AllSpace(s)
    decreases |s|
  {
    if s != [] {
      if IsSpace(s[0]) {
        FieldsEmptyIffBlank(s[1..]);
        if AllSpace(s[1..]) {
          forall k | 0 <= k < |s| ensures IsSpace(s[k]) {
            if k > 0 { assert s[k] == s[1..][k - 1]; }
          }
        } else {
          var k :| 0 <= k < |s[1..]| && !IsSpace(s[1..][k]);
          assert !IsSpace(s[k + 1]);
        }
      }
    }
  }

  /** Joining words that are each no longer than the corresponding field of `s`,
      with single spaces, never gives a string longer than `s`. */
  lemma {:induction false} JoinNoLongerThanSource(s: Bytes, ws: seq<Bytes>)
    requires |ws| == |Fields(s)|
    requires forall i :: 0 <= i < |ws| ==> |ws[i]| <= |Fields(s)[i]|
    ensures |Join(ws, [Space])| <= |s|
    decreases |s|
  {
    if s == [] {
    } else if IsSpace(s[0]) {
      JoinNoLongerThanSource(s[1..], ws);
    } else {
      var n := LeadingWord(s);
      var tail := s[n..];
      assert Fields(s) == [s[..n]] + Fields(tail);
      if |ws| > 1 {
        assert tail != [];
        assert tail[0] == s[n];
        assert tail[1..] == s[n + 1..];
        FieldsSkipsSpace(tail);
        forall i | 0 <= i < |ws[1..]|
          ensures |ws[1..][i]| <= |Fields(s[n + 1..])[i]|
        {
          assert Fields(s)[i + 1] == Fields(tail)[i];
        }
        JoinNoLongerThanSource(s[n + 1..], ws[1..]);
      }
    }
  }
}
