/** The text handling of the model client: the empty-response check and strip
    of `call`, and the code-fence extraction `call_json` applies before
    parsing JSON. The API request itself is an input. */
module GeminiClient {
  import opened Wrappers
  import opened Text

  /** What one model request yields: the response text, or the error the
      client library raised. */
  datatype Response = Reply(text: string) | ApiError(message: string)

  const EmptyResponseMessage := "Empty response from Gemini"
  const JsonFence := "```json"
  const Fence := "```"

  /** `call`: an empty text is an error; any other text comes back stripped. */
  function Call(resp: Response): (r: Result<string, string>)
    ensures resp.ApiError? ==> r == Failure(resp.message)
    ensures resp.Reply? ==> (r.Failure? <==> resp.text == "")
    ensures resp.Reply? && r.Failure? ==> r.error == EmptyResponseMessage
    ensures r.Success? ==> r.value == Strip(resp.text)
  {
    match resp
    case ApiError(msg) => Failure(msg)
    case Reply(text) =>
      if text == "" then Failure(EmptyResponseMessage) else Success(Strip(text))
  }

  /** The text `call_json` hands to the JSON parser: the inside of the first
      "```json" block if there is one, else of the first "```" block, else the
      whole text. A missing closing fence makes `find` return -1, and the
      slice then stops one character before the end. */
  function ExtractJsonText(text: string): (r: string)
    ensures |r| <= |text|
    ensures !Contains(text, Fence) ==> r == text
  {
    if Contains(text, JsonFence) then
      JsonFenceHasFence(text, Find(text, JsonFence, 0));
      var start := Find(text, JsonFence, 0) + 7;
      var end := Find(text, Fence, start);
      Strip(PySlice(text, start, end))
    else if Contains(text, Fence) then
      var start := Find(text, Fence, 0) + 3;
      var end := Find(text, Fence, start);
      Strip(PySlice(text, start, end))
    else
      text
  }

  /** Where "```json" occurs, "```" occurs too. */
  lemma JsonFenceHasFence(text: string, k: int)
    requires OccursAt(text, JsonFence, k)
    ensures OccursAt(text, Fence, k)
  {
    assert text[k..k + 3] == text[k..k + 7][..3];
  }

  /** Every occurrence of a backtick-led pattern starts with a backtick. */
  lemma OccurrenceStartsWithBacktick(text: string, sub: string)
    requires |sub| > 0 && sub[0] == '`'
    ensures forall k | OccursAt(text, sub, k) :: text[k] == '`'
  {
    forall k | OccursAt(text, sub, k) ensures text[k] == '`' {
      assert text[k] == text[k..k + |sub|][0];
    }
  }

  /** `find` returns the first occurrence at or after `from`. */
  lemma FindIsFirst(text: string, sub: string, from: nat, r: nat)
    requires from <= r && OccursAt(text, sub, r)
    requires forall k | from <= k < r :: !OccursAt(text, sub, k)
    ensures Find(text, sub, from) == r
  {
  }

  /** A backtick-led pattern is first found at `r` when it occurs there and
      no backtick lies between the search start and `r`. */
  lemma FoundAt(text: string, sub: string, from: nat, r: nat)
    requires |sub| > 0 && sub[0] == '`'
    requires from <= r && OccursAt(text, sub, r) && '`' !in text[from..r]
    ensures Find(text, sub, from) == r
  {
    OccurrenceStartsWithBacktick(text, sub);
    forall k | from <= k < r ensures text[k] != '`' {
      assert text[k] == text[from..r][k - from];
    }
  }

  /** A backtick-led pattern is not found after `from` when no backtick follows. */
  lemma NotFoundAfter(text: string, sub: string, from: nat)
    requires |sub| > 0 && sub[0] == '`'
    requires from <= |text| && '`' !in text[from..]
    ensures Find(text, sub, from) == -1
  {
    OccurrenceStartsWithBacktick(text, sub);
    forall k | from <= k < |text| ensures text[k] != '`' {
      assert text[k] == text[from..][k - from];
    }
  }

  /** The "```json" branch, given where the fences are found. */
  lemma JsonBranch(text: string, p: nat, c: int)
    requires Find(text, JsonFence, 0) == p && Find(text, Fence, p + 7) == c
    ensures c == -1 || (p + 7 <= c <= |text|)
    ensures ExtractJsonText(text) == Strip(PySlice(text, p + 7, c))
  {
    assert Contains(text, JsonFence);
    assert ExtractJsonText(text) == Strip(PySlice(text, Find(text, JsonFence, 0) + 7, Find(text, Fence, Find(text, JsonFence, 0) + 7)));
  }

  /** The plain "```" branch, given where the fences are found. */
  lemma PlainBranch(text: string, p: nat, c: int)
    requires !Contains(text, JsonFence)
    requires Find(text, Fence, 0) == p && Find(text, Fence, p + 3) == c
    ensures c == -1 || (p + 3 <= c <= |text|)
    ensures ExtractJsonText(text) == Strip(PySlice(text, p + 3, c))
  {
    assert Contains(text, Fence);
    assert ExtractJsonText(text) == Strip(PySlice(text, Find(text, Fence, 0) + 3, Find(text, Fence, Find(text, Fence, 0) + 3)));
  }

  /** A well-formed "```json" block yields its stripped inside. */
  lemma {:induction false} FencedJsonBlock(pre: string, body: string, post: string)
    requires '`' !in pre && '`' !in body
    ensures ExtractJsonText(pre + JsonFence + body + Fence + post) == Strip(body)
  {
    var text := pre + JsonFence + body + Fence + post;
    var p := |pre|;
    var c := p + 7 + |body|;
    assert text[p..p + 7] == JsonFence && text[0..p] == pre;
    FoundAt(text, JsonFence, 0, p);
    JsonBlockCloses(text, pre, body, post);
    JsonBranch(text, p, c);
    assert PySlice(text, p + 7, c) == body;
  }

  /** In a plain "```" block whose inside and tail do not start with "j",
      no "```json" starts at `k`. */
  lemma NoJsonFenceInPlainBlock(pre: string, body: string, post: string, k: nat)
    requires '`' !in pre && '`' !in body && '`' !in post
    requires (body == [] || body[0] != 'j') && (post == [] || post[0] != 'j')
    ensures !OccursAt(pre + Fence + body + Fence + post, JsonFence, k)
  {
    var text := pre + Fence + body + Fence + post;
    var p := |pre|;
    var c := p + 3 + |body|;
    if k + 7 <= |text| {
      var w := text[k..k + 7];
      if k < p {
        assert w[0] == pre[k];
      } else if k < p + 3 && body == [] {
        assert w[5 - (k - p)] == text[c + 2] == '`';
      } else if k == p {
        assert w[3] == body[0];
      } else if k == p + 1 {
        assert w[2] == body[0];
      } else if k == p + 2 {
        assert w[1] == body[0];
      } else if k < c {
        assert w[0] == body[k - p - 3];
      } else if k == c {
        assert w[3] == post[0];
      } else if k == c + 1 {
        assert w[2] == post[0];
      } else if k == c + 2 {
        assert w[1] == post[0];
      } else {
        assert w[0] == post[k - c - 3];
      }
    }
  }

  lemma NoJsonFenceInPlainText(pre: string, body: string, post: string)
    requires '`' !in pre && '`' !in body && '`' !in post
    requires (body == [] || body[0] != 'j') && (post == [] || post[0] != 'j')
    ensures !Contains(pre + Fence + body + Fence + post, JsonFence)
  {
    forall k: nat ensures !OccursAt(pre + Fence + body + Fence + post, JsonFence, k) {
      NoJsonFenceInPlainBlock(pre, body, post, k);
    }
  }

  /** Without a "```json" block, a plain "```" block yields its stripped
      inside (a block or tail starting with "j" could spell "```json"). */
  lemma {:induction false} FencedPlainBlock(pre: string, body: string, post: string)
    requires '`' !in pre && '`' !in body && '`' !in post
    requires (body == [] || body[0] != 'j') && (post == [] || post[0] != 'j')
    ensures ExtractJsonText(pre + Fence + body + Fence + post) == Strip(body)
  {
    var text := pre + Fence + body + Fence + post;
    NoJsonFenceInPlainText(pre, body, post);
    OpeningFence(text, pre, body, post);
    JsonBlockClosesAt(text, pre + Fence, body, post);
    var p := |pre|;
    var c := p + 3 + |body|;
    PlainBranch(text, p, c);
    assert PySlice(text, p + 3, c) == body;
  }

  /** The first "```" of a plain block is the one after `pre`. */
  lemma OpeningFence(text: string, pre: string, body: string, post: string)
    requires '`' !in pre
    requires text == pre + Fence + body + Fence + post
    ensures Find(text, Fence, 0) == |pre|
  {
    var p := |pre|;
    assert text[p..p + 3] == Fence && text[0..p] == pre;
    FoundAt(text, Fence, 0, p);
  }


  /** With no closing fence the slice end is -1, so the last character of
      the text is cut off. */
  lemma {:induction false} UnclosedJsonFenceDropsLastChar(pre: string, body: string)
    requires '`' !in pre && '`' !in body
    ensures ExtractJsonText(pre + JsonFence + body)
            == Strip(if body == [] then [] else body[..|body| - 1])
  {
    var text := pre + JsonFence + body;
    var p := |pre|;
    assert text[p..p + 7] == JsonFence && text[0..p] == pre;
    FoundAt(text, JsonFence, 0, p);
    assert text[p + 7..] == body;
    NotFoundAfter(text, Fence, p + 7);
    JsonBranch(text, p, -1);
    if body != [] {
      assert text[p + 7..|text| - 1] == body[..|body| - 1];
    }
  }

  /** After an unclosed plain "```" whose inside does not start with "j",
      no "```json" starts at `k`. */
  lemma NoJsonFenceInUnclosedPlainAt(pre: string, body: string, k: nat)
    requires '`' !in pre && '`' !in body
    requires body == [] || body[0] != 'j'
    ensures !OccursAt(pre + Fence + body, JsonFence, k)
  {
    var text := pre + Fence + body;
    var p := |pre|;
    if k + 7 <= |text| {
      var w := text[k..k + 7];
      if k < p {
        assert w[0] == pre[k];
      } else if k == p {
        assert w[3] == body[0];
      } else if k == p + 1 {
        assert w[2] == body[0];
      } else if k == p + 2 {
        assert w[1] == body[0];
      } else {
        assert w[0] == body[k - p - 3];
      }
    }
  }

  lemma NoJsonFenceInUnclosedPlain(pre: string, body: string)
    requires '`' !in pre && '`' !in body
    requires body == [] || body[0] != 'j'
    ensures !Contains(pre + Fence + body, JsonFence)
  {
    forall k: nat ensures !OccursAt(pre + Fence + body, JsonFence, k) {
      NoJsonFenceInUnclosedPlainAt(pre, body, k);
    }
  }

  /** The plain rule has the same off-by-one: with no closing fence the last
      character of the text is cut off. */
  lemma {:induction false} UnclosedPlainFenceDropsLastChar(pre: string, body: string)
    requires '`' !in pre && '`' !in body
    requires body == [] || body[0] != 'j'
    ensures ExtractJsonText(pre + Fence + body)
            == Strip(if body == [] then [] else body[..|body| - 1])
  {
    var text := pre + Fence + body;
    var p := |pre|;
    NoJsonFenceInUnclosedPlain(pre, body);
    assert text[p..p + 3] == Fence && text[0..p] == pre;
    FoundAt(text, Fence, 0, p);
    assert text[p + 3..] == body;
    NotFoundAfter(text, Fence, p + 3);
    PlainBranch(text, p, -1);
    if body != [] {
      assert text[p + 3..|text| - 1] == body[..|body| - 1];
    }
  }

  /** No "```json" starts inside the leading plain fence when the gap after it does not start with "j". */
  lemma NoJsonFenceAtStart(gap: string, rest: string, k: nat)
    requires gap != [] && gap[0] != 'j' && gap[0] != '`'
    requires k < 3
    ensures !OccursAt(Fence + gap + rest, JsonFence, k)
  {
    var text := Fence + gap + rest;
    if k + 7 <= |text| {
      assert text[k..k + 7][3 - k] == gap[0];
      assert JsonFence[3 - k] != gap[0];
    }
  }

  /** A "```json" block wins over an earlier plain "```" block: the plain
      rule would have returned the stripped `gap`. */
  lemma {:induction false} JsonFenceTakesPrecedence(gap: string, body: string)
    requires gap != [] && gap[0] != 'j' && '`' !in gap && '`' !in body
    ensures ExtractJsonText(Fence + gap + JsonFence + body + Fence) == Strip(body)
  {
    var text := Fence + gap + JsonFence + body + Fence;
    var p := 3 + |gap|;
    JsonFenceAfterGap(gap, body);
    assert text == (Fence + gap) + JsonFence + body + Fence + [];
    JsonBlockCloses(text, Fence + gap, body, []);
    var c := p + 7 + |body|;
    JsonBranch(text, p, c);
    assert PySlice(text, p + 7, c) == body;
  }

  /** Behind an opening "```" and a gap not starting with "j", the first
      "```json" is the one after the gap. */
  lemma JsonFenceAfterGap(gap: string, body: string)
    requires gap != [] && gap[0] != 'j' && '`' !in gap
    ensures Find(Fence + gap + JsonFence + body + Fence, JsonFence, 0) == 3 + |gap|
  {
    var text := Fence + gap + JsonFence + body + Fence;
    var p := 3 + |gap|;
    assert text == Fence + gap + (JsonFence + body + Fence);
    assert text[p..p + 7] == JsonFence && text[3..p] == gap;
    forall k | 0 <= k < 3 ensures !OccursAt(text, JsonFence, k) {
      NoJsonFenceAtStart(gap, JsonFence + body + Fence, k);
    }
    OccurrenceStartsWithBacktick(text, JsonFence);
    forall k | 3 <= k < p ensures text[k] != '`' {
      assert text[k] == gap[k - 3];
    }
    FindIsFirst(text, JsonFence, 0, p);
  }

  /** The "```" closing a "```json" block is found right after its inside. */
  lemma JsonBlockCloses(text: string, pre: string, body: string, post: string)
    requires '`' !in body
    requires text == pre + JsonFence + body + Fence + post
    ensures Find(text, Fence, |pre| + 7) == |pre| + 7 + |body|
    ensures text[|pre| + 7..|pre| + 7 + |body|] == body
  {
    JsonBlockClosesAt(text, pre + JsonFence, body, post);
  }

  /** The first "```" at or after the end of `head` closes `body`. */
  lemma JsonBlockClosesAt(text: string, head: string, body: string, post: string)
    requires '`' !in body
    requires text == head + body + Fence + post
    ensures Find(text, Fence, |head|) == |head| + |body|
    ensures text[|head|..|head| + |body|] == body
  {
    var c := |head| + |body|;
    assert text[c..c + 3] == Fence && text[|head|..c] == body;
    FoundAt(text, Fence, |head|, c);
  }


}
