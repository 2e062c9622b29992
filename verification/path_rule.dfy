/**
 * The extension-swap rule of run.py: `name.rsplit('.', 1)[0] + ext`.
 * It derives the .mp3 path from the downloaded file name and then the
 * .wav path from the .mp3 path.
 */
module PathRule {
  import opened Wrappers

  /** Index of the last '.' in `s`: the separator `s.rsplit('.', 1)` splits at. */
  function LastDot(s: string): (r: Option<nat>)
    ensures r.Some? ==> r.value < |s| && s[r.value] == '.' && '.' !in s[r.value + 1..]
    ensures r.None? ==> '.' !in s
    decreases |s|
  {
    if |s| == 0 then None
    else if s[|s| - 1] == '.' then Some(|s| - 1)
    else
      var t := s[..|s| - 1];
      var r := LastDot(t);
      assert s == t + [s[|s| - 1]];
      match r
      case None => r
      case Some(i) =>
        assert s[i + 1..] == t[i + 1..] + [s[|s| - 1]];
        r
  }

  /**
   * `s.rsplit('.', 1)[0]`: everything before the last '.', or the whole
   * of `s` when it has no '.'.
   */
  function Stem(s: string): (r: string)
    ensures '.' !in s ==> r == s
    ensures '.' in s ==> |r| < |s| && s[..|r|] == r && s[|r|] == '.' && '.' !in s[|r| + 1..]
  {
    match LastDot(s)
    case None => s
    case Some(i) => s[..i]
  }

  /** Whether `s` ends with `suffix`. */
  predicate EndsWith(s: string, suffix: string) {
    |suffix| <= |s| && s[|s| - |suffix|..] == suffix
  }

  /** A well-formed extension: one leading '.' and no other. */
  predicate IsExtension(ext: string) {
    |ext| >= 1 && ext[0] == '.' && '.' !in ext[1..]
  }

  /** `path.rsplit('.', 1)[0] + ext` (run.py lines 43 and 67). */
  function SwapExtension(path: string, ext: string): (r: string)
    ensures EndsWith(r, ext)
    ensures r[..|r| - |ext|] <= path
    ensures '.' !in path ==> r == path + ext
  {
    Stem(path) + ext
  }

  /**
   * The stem is determined by the decomposition: whatever precedes a '.'
   * that is followed by no other '.' is the stem.
   */
  lemma {:induction false} StemOfSplit(p: string, q: string)
    requires '.' !in q
    ensures Stem(p + "." + q) == p
  {
    var s := p + "." + q;
    assert s[|p|] == '.';
    var r := Stem(s);
    assert |r| == |p|;
    assert r == s[..|p|] == p;
  }

  /** Swapping replaces exactly the part after the last '.'. */
  lemma SwapOfSplit(p: string, q: string, ext: string)
    requires '.' !in q
    ensures SwapExtension(p + "." + q, ext) == p + ext
  {
    StemOfSplit(p, q);
  }

  /** The stem survives a swap to a well-formed extension. */
  lemma SwapKeepsStem(path: string, ext: string)
    requires IsExtension(ext)
    ensures Stem(SwapExtension(path, ext)) == Stem(path)
  {
    assert SwapExtension(path, ext) == Stem(path) + "." + ext[1..];
    StemOfSplit(Stem(path), ext[1..]);
  }

  /** Swapping twice with the same well-formed extension changes nothing more. */
  lemma SwapIdempotent(path: string, ext: string)
    requires IsExtension(ext)
    ensures SwapExtension(SwapExtension(path, ext), ext) == SwapExtension(path, ext)
  {
    SwapKeepsStem(path, ext);
  }

  /**
   * Deriving the .wav path from the .mp3 path gives the same result as
   * deriving it from the downloaded name directly: only the suffix changes.
   */
  lemma Mp3ThenWav(name: string)
    ensures SwapExtension(SwapExtension(name, ".mp3"), ".wav") == SwapExtension(name, ".wav")
    ensures Stem(SwapExtension(name, ".mp3")) == Stem(name)
  {
    assert IsExtension(".mp3");
    SwapKeepsStem(name, ".mp3");
  }

  /** Without the leading '.', a swap is not idempotent: "a" becomes "amp3", then "amp3mp3". */
  lemma IdempotenceNeedsDot()
    ensures SwapExtension(SwapExtension("a", "mp3"), "mp3") != SwapExtension("a", "mp3")
  {
    assert '.' !in "a" && '.' !in "amp3";
    assert "a" + "mp3" == "amp3" && "amp3" + "mp3" == "amp3mp3";
  }
}
