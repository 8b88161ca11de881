// Bytes, and the copy from earlier output that every decoder here ends in.

module Bytes {
  type Byte = b: int | 0 <= b < 256

  /** n bytes copied from `distance`+1 back, one at a time, so the copy may overlap itself. */
  function Copy(hist: seq<Byte>, distance: nat, n: nat): (r: seq<Byte>)
    requires distance < |hist|
    ensures |r| == |hist| + n
  {
    if n == 0 then hist else
      var h := Copy(hist, distance, n - 1);
      h + [h[|h| - 1 - distance]]
  }

  lemma CopyOne(hist: seq<Byte>, distance: nat)
    requires distance < |hist|
    ensures Copy(hist, distance, 1) == hist + [hist[|hist| - 1 - distance]]
  {
    assert Copy(hist, distance, 0) == hist;
  }

  /** Copying in two goes. */
  lemma {:induction false} CopyAdd(hist: seq<Byte>, distance: nat, m: nat, n: nat)
    requires distance < |hist|
    ensures Copy(Copy(hist, distance, m), distance, n) == Copy(hist, distance, m + n)
  {
    if n > 0 {
      CopyAdd(hist, distance, m, n - 1);
    }
  }

  lemma {:induction false} CopyExtends(hist: seq<Byte>, distance: nat, n: nat)
    requires distance < |hist|
    ensures hist <= Copy(hist, distance, n)
  {
    if n > 0 {
      CopyExtends(hist, distance, n - 1);
    }
  }

  /** A copy of text that is already there extends a prefix of the text. */
  lemma {:induction false} CopyIsText(text: seq<Byte>, cur: nat, distance: nat, len: nat)
    requires distance < cur && cur + len <= |text|
    requires forall i :: cur <= i < cur + len ==> text[i] == text[i - 1 - distance]
    ensures Copy(text[..cur], distance, len) == text[..cur + len]
  {
    if len > 0 {
      CopyIsText(text, cur, distance, len - 1);
      assert text[..cur + len] == text[..cur + len - 1] + [text[cur + len - 1]];
    }
  }
}
