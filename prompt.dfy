/**
 * Prompt shaping of the image adapter: `clean_input_prompt`, which drops the bytes it
 * does not admit and truncates to 800 bytes, and the PhotoMaker fix-up, which makes
 * sure the trigger word "img" occurs in the prompt but not at its very start.
 *
 * A prompt is a sequence of bytes. The test at the heart of `clean_input_prompt`
 * compares a plain `char` against `0xC2` and `0xF4`; whether that can ever hold depends
 * on whether `char` is signed, so the model takes the signedness as a parameter. With a
 * signed `char` (the usual x86 build) only ASCII bytes survive.
 */
module Prompt {
  import opened Common

  /** `result.substr(0, 800)`. */
  const MaxPromptBytes: nat := 800

  /**
   * The byte test of `clean_input_prompt`: ASCII, or a byte in [0xC2, 0xF4] when
   * `char` is unsigned (a signed `char` holding such a byte is negative).
   */
  predicate Admitted(b: byte, signedChar: bool)
  {
    b <= 0x7F || (!signedChar && 0xC2 <= b <= 0xF4)
  }

  /** The admitted bytes of `s`, in order. */
  function Filter(s: seq<byte>, signedChar: bool): (r: seq<byte>)
    ensures |r| <= |s|
  {
    if |s| == 0 then []
    else Filter(s[..|s| - 1], signedChar) + (if Admitted(s[|s| - 1], signedChar) then [s[|s| - 1]] else [])
  }

  /** `s.substr(0, n)`: the first `n` bytes, or all of `s` when it is shorter. */
  function Take<T>(s: seq<T>, n: nat): (r: seq<T>)
    ensures |r| == Min(|s|, n) && r == s[..|r|]
  {
    if |s| <= n then s else s[..n]
  }

  /** What `clean_input_prompt` returns. */
  function Clean(s: seq<byte>, signedChar: bool): seq<byte>
  {
    Take(Filter(s, signedChar), MaxPromptBytes)
  }

  /** `clean_input_prompt`: the push-back loop, then the truncation. */
  method CleanInputPrompt(input: seq<byte>, signedChar: bool) returns (result: seq<byte>)
    ensures result == Clean(input, signedChar)
    ensures |result| <= MaxPromptBytes
    ensures forall k :: 0 <= k < |result| ==> Admitted(result[k], signedChar)
  {
    result := [];
    var i := 0;
    while i < |input|
      invariant 0 <= i <= |input|
      invariant result == Filter(input[..i], signedChar)
    {
      assert input[..i + 1][..i] == input[..i];
      if Admitted(input[i], signedChar) {
        result := result + [input[i]];
      }
      i := i + 1;
    }
    assert input[..i] == input;
    FilterAdmitted(input, signedChar);
    result := Take(result, MaxPromptBytes);
  }

  /** Every byte the filter keeps is admitted. */
  lemma {:induction false} FilterAdmitted(s: seq<byte>, signedChar: bool)
    ensures forall k :: 0 <= k < |Filter(s, signedChar)| ==> Admitted(Filter(s, signedChar)[k], signedChar)
  {
    if |s| > 0 {
      FilterAdmitted(s[..|s| - 1], signedChar);
    }
  }

  /** The filter works byte by byte: filtering a concatenation concatenates the results. */
  lemma {:induction false} FilterAppend(a: seq<byte>, b: seq<byte>, signedChar: bool)
    ensures Filter(a + b, signedChar) == Filter(a, signedChar) + Filter(b, signedChar)
    decreases |b|
  {
    if |b| == 0 {
      assert a + b == a;
    } else {
      var b' := b[..|b| - 1];
      assert (a + b)[..|a + b| - 1] == a + b';
      FilterAppend(a, b', signedChar);
    }
  }

  /** A single byte survives exactly when it is admitted. */
  lemma FilterSingle(x: byte, signedChar: bool)
    ensures Filter([x], signedChar) == if Admitted(x, signedChar) then [x] else []
  {
    assert [x][..0] == [];
  }

  /** A prompt made only of admitted bytes passes the filter unchanged. */
  lemma {:induction false} FilterKeepsAdmitted(s: seq<byte>, signedChar: bool)
    requires forall k :: 0 <= k < |s| ==> Admitted(s[k], signedChar)
    ensures Filter(s, signedChar) == s
  {
    if |s| > 0 {
      FilterKeepsAdmitted(s[..|s| - 1], signedChar);
      assert s[..|s| - 1] + [s[|s| - 1]] == s;
    }
  }

  /** The cleaned prompt is the first bytes of the admitted subsequence and at most 800 long. */
  lemma CleanIsPrefixOfFilter(s: seq<byte>, signedChar: bool)
    ensures var r := Clean(s, signedChar);
      |r| == Min(|Filter(s, signedChar)|, MaxPromptBytes) && r == Filter(s, signedChar)[..|r|]
  {
  }

  /** Cleaning twice is cleaning once. */
  lemma CleanIdempotent(s: seq<byte>, signedChar: bool)
    ensures Clean(Clean(s, signedChar), signedChar) == Clean(s, signedChar)
  {
    var r := Clean(s, signedChar);
    FilterAdmitted(s, signedChar);
    assert forall k :: 0 <= k < |r| ==> Admitted(r[k], signedChar) by {
      forall k | 0 <= k < |r| ensures Admitted(r[k], signedChar) {
        assert r[k] == Filter(s, signedChar)[k];
      }
    }
    FilterKeepsAdmitted(r, signedChar);
  }

  /** With a signed `char`, every byte of the cleaned prompt is ASCII. */
  lemma SignedKeepsOnlyAscii(s: seq<byte>)
    ensures forall k :: 0 <= k < |Clean(s, true)| ==> Clean(s, true)[k] <= 0x7F
  {
    FilterAdmitted(s, true);
    var r := Clean(s, true);
    forall k | 0 <= k < |r| ensures r[k] <= 0x7F {
      assert r[k] == Filter(s, true)[k];
    }
  }

  /** A short ASCII prompt is returned unchanged on either build. */
  lemma AsciiPromptUnchanged(s: seq<byte>, signedChar: bool)
    requires |s| <= MaxPromptBytes && forall k :: 0 <= k < |s| ==> s[k] <= 0x7F
    ensures Clean(s, signedChar) == s
  {
    FilterKeepsAdmitted(s, signedChar);
  }

  // ---------------------------------------------------------------------------
  // The PhotoMaker fix-up

  /** `haystack.find(needle) != npos`. */
  predicate Contains(haystack: string, needle: string)
    decreases |haystack|
  {
    |needle| <= |haystack| &&
    (haystack[..|needle|] == needle || Contains(haystack[1..], needle))
  }

  /** `haystack.rfind(needle, 0) == 0`: the haystack starts with the needle. */
  predicate StartsWith(haystack: string, needle: string)
  {
    |needle| <= |haystack| && haystack[..|needle|] == needle
  }

  const Trigger: string := "img"

  /**
   * The fix-up applied when PhotoMaker is enabled: append " img" when "img" is missing,
   * prefix "person " when the prompt starts with "img", and otherwise keep the prompt.
   */
  function FixPhotoMakerPrompt(prompt: string, photomakerEnabled: bool): (r: string)
    ensures photomakerEnabled ==> Contains(r, Trigger) && !StartsWith(r, Trigger)
    ensures !photomakerEnabled ==> r == prompt
    ensures Contains(prompt, Trigger) && !StartsWith(prompt, Trigger) ==> r == prompt
  {
    if !photomakerEnabled then prompt
    else if !Contains(prompt, Trigger) then
      ContainsSuffix(prompt + " ", Trigger);
      assert prompt + " " + Trigger == prompt + " img";
      NoTriggerNoStart(prompt);
      prompt + " img"
    else if StartsWith(prompt, Trigger) then
      ContainsAfterPrefix("person ", prompt, Trigger);
      assert ("person " + prompt)[..3] == "per";
      "person " + prompt
    else prompt
  }

  /** Any string followed by the needle contains it. */
  lemma {:induction false} ContainsSuffix(prefix: string, needle: string)
    ensures Contains(prefix + needle, needle)
    decreases |prefix|
  {
    if |prefix| > 0 {
      assert (prefix + needle)[1..] == prefix[1..] + needle;
      ContainsSuffix(prefix[1..], needle);
    }
  }

  /** Putting text in front keeps an occurrence. */
  lemma {:induction false} ContainsAfterPrefix(front: string, s: string, needle: string)
    requires Contains(s, needle)
    ensures Contains(front + s, needle)
    decreases |front|
  {
    if |front| > 0 {
      assert (front + s)[1..] == front[1..] + s;
      ContainsAfterPrefix(front[1..], s, needle);
    } else {
      assert front + s == s;
    }
  }

  /** A prompt without "img", followed by " img", does not start with "img". */
  lemma NoTriggerNoStart(prompt: string)
    requires !Contains(prompt, Trigger)
    ensures !StartsWith(prompt + " img", Trigger)
  {
    var r := prompt + " img";
    if |prompt| >= 3 {
      assert r[..3] == prompt[..3];
    } else {
      assert r[|prompt|] == ' ';
    }
  }

  /** The fix-up is idempotent: a fixed prompt is left alone. */
  lemma FixPhotoMakerIdempotent(prompt: string, photomakerEnabled: bool)
    ensures FixPhotoMakerPrompt(FixPhotoMakerPrompt(prompt, photomakerEnabled), photomakerEnabled)
         == FixPhotoMakerPrompt(prompt, photomakerEnabled)
  {
  }
}
