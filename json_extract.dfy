/**
 * Extracting the JSON text from a language-model response: the response is
 * stripped of surrounding whitespace, one leading code fence (```json, or
 * else a bare ```) and one trailing ``` are removed, and the remainder is
 * stripped again.
 */
module JsonExtract {

  /** Python's str.isspace for a single character. */
  predicate IsSpace(c: char)
  {
    || 0x09 <= c as int <= 0x0D
    || 0x1C <= c as int <= 0x20
    || c as int == 0x85 || c as int == 0xA0 || c as int == 0x1680
    || 0x2000 <= c as int <= 0x200A
    || c as int == 0x2028 || c as int == 0x2029 || c as int == 0x202F
    || c as int == 0x205F || c as int == 0x3000
  }

  predicate AllSpace(s: string)
  {
    forall k | 0 <= k < |s| :: IsSpace(s[k])
  }

  /** Neither end of s is whitespace. */
  predicate Trimmed(s: string)
  {
    s == [] || (!IsSpace(s[0]) && !IsSpace(s[|s| - 1]))
  }

  /** s without its leading whitespace. */
  function LStrip(s: string): (r: string)
    ensures |r| <= |s| && r == s[|s| - |r|..]
    ensures AllSpace(s[..|s| - |r|])
    ensures r == [] || !IsSpace(r[0])
  {
    if s == [] || !IsSpace(s[0]) then s
    else
      var r := LStrip(s[1..]);
      assert forall k | 1 <= k < |s| - |r| :: s[k] == s[1..][..|s[1..]| - |r|][k - 1];
      assert s[1..][|s[1..]| - |r|..] == s[|s| - |r|..];
      r
  }

  /** s without its trailing whitespace. */
  function RStrip(s: string): (r: string)
    ensures |r| <= |s| && r == s[..|r|]
    ensures AllSpace(s[|r|..])
    ensures r == [] || !IsSpace(r[|r| - 1])
  {
    if s == [] || !IsSpace(s[|s| - 1]) then s
    else
      var r := RStrip(s[..|s| - 1]);
      assert forall k | |r| <= k < |s| - 1 :: s[k] == s[..|s| - 1][|r|..][k - |r|];
      r
  }

  /** Python's str.strip(): s without its leading and trailing whitespace. */
  function Strip(s: string): (r: string)
    ensures Trimmed(r) && |r| <= |s|
  {
    RStrip(LStrip(s))
  }

  /** strip removes only whitespace, and only from the two ends. */
  lemma StripRemovesOuterSpace(s: string)
    ensures exists i, j | 0 <= i <= j <= |s| :: Strip(s) == s[i..j] && AllSpace(s[..i]) && AllSpace(s[j..])
  {
    var l := LStrip(s);
    var r := RStrip(l);
    var i := |s| - |l|;
    var j := i + |r|;
    assert r == s[i..j];
    assert s[j..] == l[|r|..];
    assert AllSpace(s[j..]);
  }

  predicate StartsWith(s: string, prefix: string)
  {
    |prefix| <= |s| && s[..|prefix|] == prefix
  }

  predicate EndsWith(s: string, suffix: string)
  {
    |suffix| <= |s| && s[|s| - |suffix|..] == suffix
  }

  const JsonFence := "```json"
  const Fence := "```"

  /**
   * The text after the leading fence: at most one fence, and nothing but a
   * fence, is cut from the front, and a ```json tag goes whole in preference
   * to a bare ```.
   */
  function DropOpeningFence(s: string): (r: string)
    ensures |r| <= |s| && s == s[..|s| - |r|] + r
    ensures s[..|s| - |r|] in {"", Fence, JsonFence}
    ensures StartsWith(s, JsonFence) ==> s[..|s| - |r|] == JsonFence
    ensures StartsWith(s, Fence) <==> |r| < |s|
  {
    if StartsWith(s, JsonFence) then s[7..]
    else if StartsWith(s, Fence) then s[3..]
    else s
  }

  /** The text before the trailing fence: at most one fence, and nothing but a fence, is cut from the back. */
  function DropClosingFence(s: string): (r: string)
    ensures |r| <= |s| && s == r + s[|r|..]
    ensures s[|r|..] in {"", Fence}
    ensures EndsWith(s, Fence) <==> |r| < |s|
  {
    if EndsWith(s, Fence) then s[..|s| - 3] else s
  }

  /**
   * The JSON text of a response: whitespace-free at both ends, and a slice of
   * the response that leaves out at most the outer whitespace and one fence
   * at each end.
   */
  function ExtractJson(responseText: string): (r: string)
    ensures Trimmed(r) && |r| <= |responseText|
  {
    Strip(DropClosingFence(DropOpeningFence(Strip(responseText))))
  }

  /** The JSON text is a slice of the response. */
  lemma ExtractJsonIsSlice(x: string)
    ensures IsSliceOf(ExtractJson(x), x)
  {
    var cleaned := Strip(x);
    var unfenced := DropOpeningFence(cleaned);
    var closed := DropClosingFence(unfenced);
    StripIsSlice(x);
    OpeningFenceIsSlice(cleaned);
    ClosingFenceIsSlice(unfenced);
    StripIsSlice(closed);
    SliceOfSlice(x, cleaned, unfenced, closed, Strip(closed));
  }

  lemma OpeningFenceIsSlice(s: string)
    ensures IsSliceOf(DropOpeningFence(s), s)
  {
    var r := DropOpeningFence(s);
    assert r == s[|s| - |r|..|s|];
  }

  lemma ClosingFenceIsSlice(s: string)
    ensures IsSliceOf(DropClosingFence(s), s)
  {
    var r := DropClosingFence(s);
    assert r == s[0..|r|];
  }

  lemma StripIsSlice(s: string)
    ensures IsSliceOf(Strip(s), s)
  {
    StripRemovesOuterSpace(s);
  }

  /** A slice of a slice of a slice of a slice of x is a slice of x. */
  lemma SliceOfSlice(x: string, a: string, b: string, c: string, d: string)
    requires IsSliceOf(a, x) && IsSliceOf(b, a) && IsSliceOf(c, b) && IsSliceOf(d, c)
    ensures IsSliceOf(d, x)
  {
    SliceTransitive(b, a, x);
    SliceTransitive(c, b, x);
    SliceTransitive(d, c, x);
  }

  ghost predicate IsSliceOf(r: string, s: string)
  {
    exists i, j | 0 <= i <= j <= |s| :: r == s[i..j]
  }

  lemma SliceTransitive(a: string, b: string, c: string)
    requires IsSliceOf(a, b) && IsSliceOf(b, c)
    ensures IsSliceOf(a, c)
  {
    var i, j :| 0 <= i <= j <= |b| && a == b[i..j];
    var k, l :| 0 <= k <= l <= |c| && b == c[k..l];
    SliceOfSliceIndex(c, k, l, i, j);
  }

  lemma ConcatAssoc(x: string, y: string, z: string)
    ensures x + y + z == x + (y + z)
  {
  }

  lemma SliceOfSliceIndex(c: string, k: int, l: int, i: int, j: int)
    requires 0 <= k <= l <= |c| && 0 <= i <= j <= l - k
    ensures c[k..l][i..j] == c[k + i..k + j]
  {
    assert forall m | 0 <= m < j - i :: c[k..l][i..j][m] == c[k + i + m];
  }

  // ---- stripping ----

  lemma {:induction false} LStripSpaces(a: string, t: string)
    requires AllSpace(a)
    ensures LStrip(a + t) == LStrip(t)
  {
    if a != [] {
      assert (a + t)[0] == a[0];
      assert (a + t)[1..] == a[1..] + t;
      LStripSpaces(a[1..], t);
    } else {
      assert a + t == t;
    }
  }

  lemma {:induction false} RStripSpaces(t: string, b: string)
    requires AllSpace(b)
    ensures RStrip(t + b) == RStrip(t)
  {
    if b != [] {
      var n := |t + b|;
      assert (t + b)[n - 1] == b[|b| - 1];
      assert (t + b)[..n - 1] == t + b[..|b| - 1];
      RStripSpaces(t, b[..|b| - 1]);
    } else {
      assert t + b == t;
    }
  }

  /** Whitespace around text without outer whitespace is exactly what strip removes. */
  lemma StripPadded(a: string, s: string, b: string)
    requires AllSpace(a) && Trimmed(s) && AllSpace(b)
    ensures Strip(a + s + b) == s
  {
    assert a + s + b == a + (s + b);
    LStripSpaces(a, s + b);
    if s == [] {
      assert s + b == [] + b;
      LStripSpaces(b, []);
      assert b + [] == b;
    } else {
      assert (s + b)[0] == s[0];
      RStripSpaces(s, b);
    }
  }

  /** Text without outer whitespace is left as it is. */
  lemma StripTrimmed(s: string)
    requires Trimmed(s)
    ensures Strip(s) == s
  {
    assert LStrip(s) == s;
  }

  /** Stripping a second time changes nothing. */
  lemma StripIdempotent(s: string)
    ensures Strip(Strip(s)) == Strip(s)
  {
    StripTrimmed(Strip(s));
  }

  // ---- extraction ----

  lemma DropJsonFence(t: string)
    ensures DropOpeningFence(JsonFence + t) == t
  {
    assert (JsonFence + t)[..|JsonFence|] == JsonFence;
    assert (JsonFence + t)[|JsonFence|..] == t;
  }

  lemma DropBareFence(t: string)
    requires |t| > 0 && IsSpace(t[0])
    ensures DropOpeningFence(Fence + t) == t
  {
    assert (Fence + t)[3] == t[0];
    assert (Fence + t)[..|Fence|] == Fence;
    assert (Fence + t)[|Fence|..] == t;
  }

  lemma DropFinalFence(t: string)
    ensures DropClosingFence(t + Fence) == t
  {
    assert (t + Fence)[|t + Fence| - |Fence|..] == Fence;
    assert (t + Fence)[..|t + Fence| - |Fence|] == t;
  }

  /** The extraction, stage by stage. */
  lemma ExtractJsonStages(x: string, cleaned: string, unfenced: string, closed: string)
    requires Strip(x) == cleaned
    requires DropOpeningFence(cleaned) == unfenced
    requires DropClosingFence(unfenced) == closed
    ensures ExtractJson(x) == Strip(closed)
  {
  }

  /** A fenced block with whitespace outside it is stripped to the block. */
  lemma StripBlock(a: string, opening: string, inner: string, b: string)
    requires AllSpace(a) && AllSpace(b) && opening != [] && !IsSpace(opening[0])
    ensures Strip(a + opening + inner + Fence + b) == opening + inner + Fence
  {
    var block := opening + inner + Fence;
    assert a + opening + inner + Fence + b == a + block + b;
    assert block[0] == opening[0];
    assert block[|block| - 1] == '`';
    StripPadded(a, block, b);
  }

  /** A block fenced by ```json, with whitespace outside it, yields its inner text stripped. */
  lemma ExtractJsonBlock(a: string, inner: string, b: string)
    requires AllSpace(a) && AllSpace(b)
    ensures ExtractJson(a + JsonFence + inner + Fence + b) == Strip(inner)
  {
    var x := a + JsonFence + inner + Fence + b;
    var tail := inner + Fence;
    var block := JsonFence + tail;
    assert Strip(x) == block by {
      StripBlock(a, JsonFence, inner, b);
      ConcatAssoc(JsonFence, inner, Fence);
    }
    assert DropOpeningFence(block) == tail by { DropJsonFence(tail); }
    assert DropClosingFence(tail) == inner by { DropFinalFence(inner); }
    ExtractJsonStages(x, block, tail, inner);
  }

  /** A block fenced by bare ``` whose inner text starts with whitespace yields that text stripped. */
  lemma ExtractBareBlock(a: string, inner: string, b: string)
    requires AllSpace(a) && AllSpace(b) && |inner| > 0 && IsSpace(inner[0])
    ensures ExtractJson(a + Fence + inner + Fence + b) == Strip(inner)
  {
    var x := a + Fence + inner + Fence + b;
    var tail := inner + Fence;
    var block := Fence + tail;
    assert Strip(x) == block by {
      StripBlock(a, Fence, inner, b);
      ConcatAssoc(Fence, inner, Fence);
    }
    assert DropOpeningFence(block) == tail by {
      assert tail[0] == inner[0];
      DropBareFence(tail);
    }
    assert DropClosingFence(tail) == inner by { DropFinalFence(inner); }
    ExtractJsonStages(x, block, tail, inner);
  }

  /**
   * A fenced block tagged json, with any whitespace around the fences and
   * inside them, yields its content.
   */
  lemma ExtractJsonFencedJson(a: string, p: string, s: string, q: string, b: string)
    requires AllSpace(a) && AllSpace(p) && Trimmed(s) && AllSpace(q) && AllSpace(b)
    ensures ExtractJson(a + JsonFence + p + s + q + Fence + b) == s
  {
    assert a + JsonFence + p + s + q + Fence + b == a + JsonFence + (p + s + q) + Fence + b;
    ExtractJsonBlock(a, p + s + q, b);
    StripPadded(p, s, q);
  }

  /**
   * A bare fenced block yields its content when the opening fence is
   * followed by whitespace (so that it cannot be read as ```json).
   */
  lemma ExtractJsonFencedBare(a: string, p: string, s: string, q: string, b: string)
    requires AllSpace(a) && AllSpace(p) && |p| > 0 && Trimmed(s) && AllSpace(q) && AllSpace(b)
    ensures ExtractJson(a + Fence + p + s + q + Fence + b) == s
  {
    assert a + Fence + p + s + q + Fence + b == a + Fence + (p + s + q) + Fence + b;
    assert (p + s + q)[0] == p[0];
    ExtractBareBlock(a, p + s + q, b);
    StripPadded(p, s, q);
  }

  /**
   * The round trip: any text without outer whitespace, put on its own lines
   * in a fenced block tagged json, is extracted as it is, even when it is
   * itself fenced (only one fence is removed at each end).
   */
  lemma ExtractJsonRoundTrip(s: string)
    requires Trimmed(s)
    ensures ExtractJson(JsonFence + "\n" + s + "\n" + Fence) == s
  {
    assert JsonFence + "\n" + s + "\n" + Fence == [] + JsonFence + "\n" + s + "\n" + Fence + [];
    ExtractJsonFencedJson([], "\n", s, "\n", []);
  }

  /** A typical response: a JSON object in a fenced block tagged json. */
  lemma ExtractJsonExample()
    ensures ExtractJson("```json\n{\"pH\": 7}\n```") == "{\"pH\": 7}"
  {
    var s := "{\"pH\": 7}";
    assert "```json\n{\"pH\": 7}\n```" == [] + JsonFence + "\n" + s + "\n" + Fence + [];
    ExtractJsonFencedJson([], "\n", s, "\n", []);
  }

  /** When the stripped response opens with ```json, the tag is never part of the result. */
  lemma ExtractJsonDropsTag(x: string)
    requires StartsWith(Strip(x), JsonFence)
    ensures IsSliceOf(ExtractJson(x), Strip(x)[|JsonFence|..])
  {
    var unfenced := Strip(x)[|JsonFence|..];
    var closed := DropClosingFence(unfenced);
    ClosingFenceIsSlice(unfenced);
    StripIsSlice(closed);
    SliceTransitive(Strip(closed), closed, unfenced);
    ExtractJsonStages(x, Strip(x), unfenced, closed);
  }

  /** Without fences the extraction is just a strip. */
  lemma ExtractJsonUnfenced(x: string)
    requires !StartsWith(Strip(x), Fence) && !EndsWith(Strip(x), Fence)
    ensures ExtractJson(x) == Strip(x)
  {
    StripTrimmed(Strip(x));
  }

  /** JSON text without a fence at either end is extracted as it is. */
  lemma ExtractJsonStable(x: string)
    requires var r := ExtractJson(x); !StartsWith(r, Fence) && !EndsWith(r, Fence)
    ensures ExtractJson(ExtractJson(x)) == ExtractJson(x)
  {
    var r := ExtractJson(x);
    StripTrimmed(r);
    ExtractJsonUnfenced(r);
  }
}
