/** `text_seed`: at most 32 bytes of a string, for use as one seed of a
    program-derived address (a single seed may not exceed 32 bytes). */
module Utils {
  import opened Bytes

  /** The largest seed a program-derived address accepts. */
  const SeedMax: nat := 32

  /** `r` occurs in `s` as one contiguous run of bytes. */
  ghost predicate IsSlice(r: seq<u8>, s: seq<u8>)
  {
    exists lo, hi :: 0 <= lo <= hi <= |s| && s[lo..hi] == r
  }

  /** The first chunk (`leftover == false`) or the second chunk
      (`leftover == true`) of a text longer than one seed; a text that fits
      in one seed is returned whole for both values of `leftover`. */
  function TextSeed(text: seq<u8>, leftover: bool): (r: seq<u8>)
    ensures |r| <= SeedMax
    ensures |text| > 0 ==> |r| > 0
    ensures !leftover ==> r <= text
  {
    if |text| > SeedMax then
      if leftover then
        if |text| > 2 * SeedMax then text[SeedMax..2 * SeedMax] else text[SeedMax..]
      else
        text[0..SeedMax]
    else
      text
  }

  lemma {:induction false} TextSeedIsSlice(text: seq<u8>, leftover: bool)
    ensures IsSlice(TextSeed(text, leftover), text)
  {
    var r := TextSeed(text, leftover);
    if |text| > SeedMax && leftover {
      assert text[SeedMax..SeedMax + |r|] == r;
    } else {
      assert text[0..|r|] == r;
    }
  }

  lemma ShortTextIsWhole(text: seq<u8>, leftover: bool)
    requires |text| <= SeedMax
    ensures TextSeed(text, leftover) == text
  {
  }

  lemma FirstChunk(text: seq<u8>)
    requires |text| > SeedMax
    ensures TextSeed(text, false) == text[..SeedMax]
  {
  }

  lemma SecondChunkOfLongText(text: seq<u8>)
    requires |text| > 2 * SeedMax
    ensures TextSeed(text, true) == text[SeedMax..2 * SeedMax]
  {
  }

  lemma SecondChunkOfMediumText(text: seq<u8>)
    requires SeedMax < |text| <= 2 * SeedMax
    ensures TextSeed(text, true) == text[SeedMax..]
  {
  }

  /** For a text of 33 to 64 bytes the two chunks put back together are the text. */
  lemma {:induction false} ChunksRejoin(text: seq<u8>)
    requires SeedMax < |text| <= 2 * SeedMax
    ensures TextSeed(text, false) + TextSeed(text, true) == text
  {
    assert text[..SeedMax] + text[SeedMax..] == text;
  }

  /** For any text longer than one seed the two chunks put back together are
      its first 64 bytes (the rest takes part in no seed). */
  lemma {:induction false} ChunksCoverPrefix(text: seq<u8>)
    requires |text| > SeedMax
    ensures TextSeed(text, false) + TextSeed(text, true) == text[..if |text| < 2 * SeedMax then |text| else 2 * SeedMax]
  {
    if |text| > 2 * SeedMax {
      assert text[..SeedMax] + text[SeedMax..2 * SeedMax] == text[..2 * SeedMax];
    } else {
      ChunksRejoin(text);
    }
  }

  /** JavaScript's `s.slice(lo, hi)` for `0 <= lo <= hi` on a string whose code
      units are single bytes (ASCII): both ends clamp to the length. */
  function JsSlice(s: seq<u8>, lo: nat, hi: nat): (r: seq<u8>)
    requires lo <= hi
  {
    var l := if lo < |s| then lo else |s|;
    var h := if hi < |s| then hi else |s|;
    s[l..h]
  }

  /** The client derives an exercise address from `cid.slice(0, 32)` and
      `cid.slice(32, 64)`. JavaScript slices a string by UTF-16 code units,
      which are bytes only for an ASCII cid, so `cid` here is the bytes of an
      ASCII cid. For such a cid the first client seed agrees with
      `TextSeed(cid, false)` always, and the second with `TextSeed(cid, true)`
      whenever the cid is longer than one seed. For a cid of at most 32 bytes
      the second client seed is empty while `TextSeed(cid, true)` is the
      whole cid. */
  lemma {:induction false} ClientSeedsAgree(cid: seq<u8>)
    ensures TextSeed(cid, false) == JsSlice(cid, 0, SeedMax)
    ensures |cid| > SeedMax ==> TextSeed(cid, true) == JsSlice(cid, SeedMax, 2 * SeedMax)
    ensures |cid| <= SeedMax ==> JsSlice(cid, SeedMax, 2 * SeedMax) == [] && TextSeed(cid, true) == cid
  {
  }
}
