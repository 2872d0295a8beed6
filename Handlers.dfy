/**
 * The validation and cleaning part of `handlerValidateChirp` in
 * src/api/handlers.ts: reject a long body, then split on single spaces, mask
 * every profane word and join again with single spaces.
 */
module Handlers {
  import opened Wrappers

  const MaxChirpLength: nat := 140
  const ChirpTooLong: string := "Chirp too long"
  const ProfanityList: seq<string> := ["kerfuffle", "sharbert", "fornax"]
  const Mask: string := "****"

  // ---------------------------------------------------------------------
  // toLowerCase, restricted to ASCII
  // ---------------------------------------------------------------------

  function LowerChar(c: char): char
  {
    if 'A' <= c <= 'Z' then (c as int - 'A' as int + 'a' as int) as char else c
  }

  /** `s.toLowerCase()`, one character at a time. */
  function Lower(s: string): (r: string)
    ensures |r| == |s|
    ensures forall i :: 0 <= i < |s| ==> r[i] == LowerChar(s[i])
  {
    if s == [] then [] else [LowerChar(s[0])] + Lower(s[1..])
  }

  // ---------------------------------------------------------------------
  // split(" ") and join(" ")
  // ---------------------------------------------------------------------

  function SpaceCount(s: string): nat
  {
    if s == [] then 0 else (if s[0] == ' ' then 1 else 0) + SpaceCount(s[1..])
  }

  /**
   * `s.split(" ")`: never empty, no piece contains a space, and consecutive,
   * leading or trailing spaces give empty pieces ("" splits to [""]).
   */
  function Split(s: string): (ws: seq<string>)
    ensures |ws| == SpaceCount(s) + 1
    ensures forall k :: 0 <= k < |ws| ==> ' ' !in ws[k]
  {
    if s == [] then [""]
    else
      var rest := Split(s[1..]);
      if s[0] == ' ' then [""] + rest
      else [[s[0]] + rest[0]] + rest[1..]
  }

  ghost predicate SpaceFree(ws: seq<string>)
  {
    forall k :: 0 <= k < |ws| ==> ' ' !in ws[k]
  }

  lemma {:induction false} SpaceCountAppend(a: string, b: string)
    ensures SpaceCount(a + b) == SpaceCount(a) + SpaceCount(b)
  {
    if a == [] {
      assert a + b == b;
    } else {
      assert (a + b)[1..] == a[1..] + b;
      SpaceCountAppend(a[1..], b);
    }
  }

  lemma {:induction false} SpaceCountWord(w: string)
    requires ' ' !in w
    ensures SpaceCount(w) == 0
  {
    if w != [] {
      SpaceCountWord(w[1..]);
    }
  }

  /**
   * `ws.join(" ")`: one separator between each pair of neighbouring words.
   * For a non-empty list of space-free words, splitting the result gives the
   * words back, so they appear in order with exactly one space between each
   * pair and none elsewhere.
   */
  function Join(ws: seq<string>): (r: string)
    ensures ws == [] ==> r == ""
    ensures |ws| >= 1 && SpaceFree(ws) ==> Split(r) == ws
    ensures |ws| >= 1 && SpaceFree(ws) ==> SpaceCount(r) == |ws| - 1
  {
    if ws == [] then ""
    else if |ws| == 1 then
      assert SpaceFree(ws) ==> SpaceCount(ws[0]) == 0 && Split(ws[0]) == ws by {
        if SpaceFree(ws) {
          SpaceCountWord(ws[0]);
          SplitWordPrefix(ws[0], "");
          assert ws[0] + "" == ws[0];
        }
      }
      ws[0]
    else
      var tail := Join(ws[1..]);
      SpaceCountAppend(ws[0], " " + tail);
      SpaceCountAppend(" ", tail);
      assert ws[0] + " " + tail == ws[0] + (" " + tail);
      assert SpaceCount(" ") == 1;
      assert SpaceFree(ws) ==> SpaceCount(ws[0]) == 0 && SpaceFree(ws[1..]) && Split(ws[0] + " " + tail) == ws by {
        if SpaceFree(ws) {
          SpaceCountWord(ws[0]);
          assert SpaceFree(ws[1..]);
          SplitWordPrefix(ws[0], " " + tail);
          assert (" " + tail)[1..] == tail;
          assert ws[0] + "" == ws[0];
          assert [ws[0]] + ws[1..] == ws;
        }
      }
      ws[0] + " " + tail
  }

  /** Joining the pieces of a split gives the string back. */
  lemma {:induction false} JoinSplit(s: string)
    ensures Join(Split(s)) == s
  {
    if s != [] {
      var rest := Split(s[1..]);
      JoinSplit(s[1..]);
      if s[0] == ' ' {
        assert Split(s) == [""] + rest;
        assert (Split(s))[1..] == rest;
        assert Join(Split(s)) == "" + " " + Join(rest);
        assert s == [s[0]] + s[1..];
      } else if |rest| == 1 {
        assert Join(Split(s)) == [s[0]] + rest[0];
        assert s == [s[0]] + s[1..];
      } else {
        var ws := Split(s);
        assert ws[1..] == rest[1..];
        assert Join(rest) == rest[0] + " " + Join(rest[1..]);
        calc {
          Join(ws);
          ([s[0]] + rest[0]) + " " + Join(rest[1..]);
          [s[0]] + (rest[0] + " " + Join(rest[1..]));
          [s[0]] + s[1..];
          s;
        }
      }
    }
  }

  /** A space-free word in front of `t` fuses with the first piece of `t`. */
  lemma {:induction false} SplitWordPrefix(w: string, t: string)
    requires ' ' !in w
    ensures Split(w + t) == [w + Split(t)[0]] + Split(t)[1..]
  {
    if w != [] {
      SplitWordPrefix(w[1..], t);
      assert (w + t)[0] == w[0];
      assert (w + t)[1..] == w[1..] + t;
      assert [w[0]] + (w[1..] + Split(t)[0]) == w + Split(t)[0];
    } else {
      assert w + t == t;
      assert w + Split(t)[0] == Split(t)[0];
      assert [Split(t)[0]] + Split(t)[1..] == Split(t);
    }
  }

  // ---------------------------------------------------------------------
  // Masking and the handler
  // ---------------------------------------------------------------------

  /** The `map` callback: a word whose lower-case form is listed becomes the mask. */
  function MaskWord(w: string): (r: string)
    ensures Lower(w) in ProfanityList ==> r == Mask
    ensures Lower(w) !in ProfanityList ==> r == w
    ensures Lower(r) !in ProfanityList
  {
    assert Lower(Mask) == Mask;
    if Lower(w) in ProfanityList then Mask else w
  }

  /** `words.map(MaskWord)`: no listed word is left, and unlisted words stay in place. */
  function MaskAll(ws: seq<string>): (r: seq<string>)
    ensures |r| == |ws|
    ensures forall i :: 0 <= i < |ws| ==> Lower(r[i]) !in ProfanityList
    ensures forall i :: 0 <= i < |ws| ==> Lower(ws[i]) !in ProfanityList ==> r[i] == ws[i]
    ensures SpaceFree(ws) ==> SpaceFree(r)
  {
    assert ' ' !in Mask;
    seq(|ws|, i requires 0 <= i < |ws| => MaskWord(ws[i]))
  }

  /**
   * The cleaned chirp, `body.split(" ").map(MaskWord).join(" ")`: as many
   * spaces as the body, and no listed word among its words.
   */
  function Clean(body: string): (r: string)
    ensures SpaceCount(r) == SpaceCount(body)
    ensures forall k :: 0 <= k < |Split(r)| ==> Lower(Split(r)[k]) !in ProfanityList
  {
    Join(MaskAll(Split(body)))
  }

  /** The mask is not itself listed, so masking is stable. */
  lemma MaskWordIdempotent(w: string)
    ensures MaskWord(MaskWord(w)) == MaskWord(w)
  {
    assert Lower(Mask) == Mask;
  }

  /** Cleaning acts word by word: splitting the output gives the masked input words. */
  lemma CleanWords(body: string)
    ensures Split(Clean(body)) == MaskAll(Split(body))
  {
    var ws := MaskAll(Split(body));
    assert ' ' !in Mask;
    assert SpaceFree(ws);
  }

  /** `handlerValidateChirp` up to the response: the cleaned body, or the error it throws. */
  function ValidateChirp(body: string): (r: Result<string, string>)
    ensures r.Failure? <==> |body| > MaxChirpLength
    ensures r.Failure? ==> r.error == ChirpTooLong
    ensures r.Success? ==> Split(r.value) == MaskAll(Split(body))
  {
    if |body| > MaxChirpLength then Failure(ChirpTooLong)
    else
      CleanWords(body);
      Success(Clean(body))
  }

  /** Word count and number of spaces are preserved. */
  lemma CleanPreservesWordCount(body: string)
    ensures |Split(Clean(body))| == |Split(body)|
    ensures SpaceCount(Clean(body)) == SpaceCount(body)
  {
    CleanWords(body);
  }

  /** Word `i` of the output is the mask iff word `i` of the input is listed, and otherwise is that word. */
  lemma CleanWordAt(body: string, i: nat)
    requires i < |Split(body)|
    ensures i < |Split(Clean(body))|
    ensures Lower(Split(body)[i]) in ProfanityList ==> Split(Clean(body))[i] == Mask
    ensures Lower(Split(body)[i]) !in ProfanityList ==> Split(Clean(body))[i] == Split(body)[i]
  {
    CleanWords(body);
  }

  /** Matching ignores case: a listed word in mixed case is masked. */
  lemma MixedCaseMasked()
    ensures MaskWord("KerFuffle") == Mask
  {
    var w := "KerFuffle";
    var l := Lower(w);
    forall i | 0 <= i < 9
      ensures l[i] == "kerfuffle"[i]
    {
      assert l[i] == LowerChar(w[i]);
    }
    assert l == "kerfuffle";
  }

  /** Listed words have 9, 8 and 6 characters, so a word of any other length is never masked. */
  lemma UnlistedLengthKept(w: string)
    requires |w| != 9 && |w| != 8 && |w| != 6
    ensures MaskWord(w) == w
  {
    var l := Lower(w);
    assert |l| == |w|;
    assert l != ProfanityList[0] && l != ProfanityList[1] && l != ProfanityList[2];
  }

  /** Matching needs the whole word: a listed word with extra characters around it is kept. */
  lemma WholeWordOnly()
    ensures MaskWord("kerfuffle!") == "kerfuffle!"
    ensures MaskWord("xfornax") == "xfornax"
  {
    UnlistedLengthKept("kerfuffle!");
    UnlistedLengthKept("xfornax");
  }

  /** A body without a listed word comes back unchanged. */
  lemma CleanWithoutProfanity(body: string)
    requires forall k :: 0 <= k < |Split(body)| ==> Lower(Split(body)[k]) !in ProfanityList
    ensures Clean(body) == body
  {
    assert MaskAll(Split(body)) == Split(body);
    JoinSplit(body);
  }

  /** Cleaning twice is cleaning once. */
  lemma CleanIdempotent(body: string)
    ensures Clean(Clean(body)) == Clean(body)
  {
    var ws := MaskAll(Split(body));
    CleanWords(body);
    forall k | 0 <= k < |ws|
      ensures MaskWord(ws[k]) == ws[k]
    {
      MaskWordIdempotent(Split(body)[k]);
    }
    assert MaskAll(ws) == ws;
  }
}
