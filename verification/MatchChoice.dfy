// What the match finder hands to the parser is true of the data in the sense that the
// symbol coder needs.

module MatchChoices {
  import opened Bytes
  import opened LzmaModel
  import opened LzmaEncoders
  import opened MatchTrees

  /** A match found at `cur` can be coded, and playing it back extends the history by the true text. */
  lemma FoundIsTrue(w: Window, f: Found, z: Lz)
    requires ValidWindow(w) && Genuine(w, f) && ValidLz(z) && z.hist == w.text[..w.cur]
    requires MATCH_MIN_LEN <= f.len <= MATCH_MAX_LEN && f.distance < MAX_DICTIONARY
    ensures Encodable(z, f.len, f.distance + 4)
    ensures var s := ToSymbol(w.text, w.cur, f.len, f.distance + 4);
            ValidSymbol(s) && Refers(z, s) && Apply(z, s).hist == w.text[..w.cur + f.len]
  {
    forall i | w.cur <= i < w.cur + f.len
      ensures w.text[i] == w.text[i - 1 - f.distance]
    {
      assert At(w.text, w.cur - f.distance - 1, i - w.cur) == At(w.text, w.cur, i - w.cur);
    }
    CopyIsText(w.text, w.cur, f.distance, f.len);
  }
}
