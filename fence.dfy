/**
 * The clean-up `process_image_and_send_json` in bot.py applies to the text
 * the vision model streams back: a Markdown code fence around the answer is
 * cut away, and only a text that then starts with `[` is passed on to
 * `json.loads`.
 */
module FenceStrip {
  import opened PyStr

  const Fence := "```"

  /** The characters of `lstrip("`json")`, which strips a set of characters, not a prefix. */
  predicate FenceTagChar(c: char) {
    c == '`' || c == 'j' || c == 's' || c == 'o' || c == 'n'
  }

  predicate Backtick(c: char) {
    c == '`'
  }

  /** `.lstrip("`json").lstrip("`").strip()` on the stripped answer. */
  function OpenCut(t: string): string {
    Strip(LStrip(LStrip(t, FenceTagChar), Backtick))
  }

  /** `if s.endswith("```"): s = s[:s.rfind("```")].strip()`. */
  function CloseCut(u: string): string {
    if EndsWith(u, Fence) then
      RFindOfSuffix(u, Fence);
      Strip(u[..RFind(u, Fence)])
    else u
  }

  /**
   * The answer after the fence handling: when its stripped form opens with
   * three backticks, the opening and closing fences are cut; any other
   * answer is left exactly as it came, not even stripped.
   */
  function Unfenced(raw: string): string {
    var t := Strip(raw);
    if StartsWith(t, Fence) then CloseCut(OpenCut(t)) else raw
  }

  /** `json_result.strip().startswith("[")`: the test for an answer worth parsing. */
  predicate Accepted(text: string) {
    StartsWith(Strip(Unfenced(text)), "[")
  }

  /** The second `lstrip("`")` never removes anything: the first one already took every leading backtick. */
  lemma BacktickStripIdle(t: string)
    ensures OpenCut(t) == Strip(LStrip(t, FenceTagChar))
  {
    SkipForwardAt(LStrip(t, FenceTagChar), Backtick, 0);
  }

  /** A closing fence is cut at the end, where its last occurrence is. */
  lemma CloseCutAtEnd(u: string)
    ensures EndsWith(u, Fence) ==> CloseCut(u) == Strip(u[..|u| - 3])
    ensures !EndsWith(u, Fence) ==> CloseCut(u) == u
  {
    if EndsWith(u, Fence) {
      RFindOfSuffix(u, Fence);
    }
  }

  /** An answer that does not open with a fence is passed on unchanged. */
  lemma UnfencedPlain(raw: string)
    requires !StartsWith(Strip(raw), Fence)
    ensures Unfenced(raw) == raw
  {
  }

  /**
   * A fenced answer loses its leading backticks and every "`json"
   * character after them, and is stripped; then a closing fence at its end,
   * and only there, is cut and the rest stripped again.
   */
  lemma UnfencedFenced(raw: string)
    requires StartsWith(Strip(raw), Fence)
    ensures var u := Strip(LStrip(Strip(raw), FenceTagChar));
      && (EndsWith(u, Fence) ==> Unfenced(raw) == Strip(u[..|u| - 3]))
      && (!EndsWith(u, Fence) ==> Unfenced(raw) == u)
  {
    BacktickStripIdle(Strip(raw));
    CloseCutAtEnd(OpenCut(Strip(raw)));
  }

  /** A fenced answer comes out stripped. */
  lemma UnfencedTrimmed(raw: string)
    requires StartsWith(Strip(raw), Fence)
    ensures Trimmed(Unfenced(raw))
  {
    UnfencedFenced(raw);
  }

  /** A fenced answer comes out strictly shorter: at least the opening backticks are gone. */
  lemma UnfencedShorter(raw: string)
    requires StartsWith(Strip(raw), Fence)
    ensures |Unfenced(raw)| < |raw|
  {
    StripShorter(raw);
    OpenCutShorter(Strip(raw));
    CloseCutShorter(OpenCut(Strip(raw)));
  }

  lemma OpenCutShorter(t: string)
    requires StartsWith(t, Fence)
    ensures |OpenCut(t)| < |t|
  {
    BacktickStripIdle(t);
    var l := LStrip(t, FenceTagChar);
    assert |l| < |t| by {
      assert t[0] == '`';
    }
    StripShorter(l);
  }

  lemma CloseCutShorter(u: string)
    ensures |CloseCut(u)| <= |u|
  {
    CloseCutAtEnd(u);
    if EndsWith(u, Fence) {
      StripShorter(u[..|u| - 3]);
    }
  }

  /**
   * What the fence handling is for: a trimmed payload, fenced as
   * "```" + tag + "\n" + payload + "\n```" with a tag made of the
   * characters of "`json" ("json", or nothing), comes back as the payload itself.
   */
  lemma FenceRoundTrip(tag: string, payload: string)
    requires forall i | 0 <= i < |tag| :: FenceTagChar(tag[i])
    requires payload != [] && Trimmed(payload)
    ensures Unfenced(Fence + tag + "\n" + payload + "\n" + Fence) == payload
  {
    var u := payload + "\n" + Fence;
    var raw := Fence + tag + "\n" + u;
    assert Fence + tag + "\n" + payload + "\n" + Fence == raw;
    FencedTrimmed(tag, u);
    OpenCutFenced(tag, u);
    CloseCutFenced(payload);
  }

  /** The fenced text is its own `strip()` and opens with a fence. */
  lemma FencedTrimmed(tag: string, u: string)
    requires u != [] && u[|u| - 1] == '`'
    ensures var raw := Fence + tag + "\n" + u;
      Strip(raw) == raw && StartsWith(raw, Fence)
  {
    var raw := Fence + tag + "\n" + u;
    assert raw[0] == '`' && raw[|raw| - 1] == u[|u| - 1];
    StripTrimmed(raw);
    assert raw[..3] == Fence;
  }

  /** The opening fence and its tag are cut, then the newline after them is stripped. */
  lemma OpenCutFenced(tag: string, u: string)
    requires forall i | 0 <= i < |tag| :: FenceTagChar(tag[i])
    requires u != [] && Trimmed(u)
    ensures OpenCut(Fence + tag + "\n" + u) == u
  {
    var head := Fence + tag;
    var body := "\n" + u;
    assert Fence + tag + "\n" + u == head + body;
    forall j | 0 <= j < |head|
      ensures FenceTagChar(head[j])
    {
      if j >= 3 {
        assert head[j] == tag[j - 3];
      }
    }
    TagStripped(head, body);
    BacktickStripIdle(head + body);
    assert body == "\n" + u + "";
    StripAround("\n", u, "");
  }

  /** `lstrip("`json")` stops at the first character outside the set, here a newline. */
  lemma TagStripped(head: string, body: string)
    requires forall j | 0 <= j < |head| :: FenceTagChar(head[j])
    requires body != [] && body[0] == '\n'
    ensures LStrip(head + body, FenceTagChar) == body
  {
    var raw := head + body;
    assert raw[|head|] == '\n';
    SkipForwardAt(raw, FenceTagChar, |head|);
    assert raw[|head|..] == body;
  }

  /** The closing fence is cut and the newline before it stripped. */
  lemma CloseCutFenced(payload: string)
    requires payload != [] && Trimmed(payload)
    ensures CloseCut(payload + "\n" + Fence) == payload
  {
    var u := payload + "\n" + Fence;
    assert EndsWith(u, Fence) by {
      assert u[|u| - 3..] == Fence;
    }
    CloseCutAtEnd(u);
    assert u[..|u| - 3] == "" + payload + "\n";
    StripAround("", payload, "\n");
  }

  /** A fenced payload as in `FenceRoundTrip` is parsed exactly when the payload opens with `[`. */
  lemma FencedAccepted(tag: string, payload: string)
    requires forall i | 0 <= i < |tag| :: FenceTagChar(tag[i])
    requires payload != [] && Trimmed(payload)
    ensures Accepted(Fence + tag + "\n" + payload + "\n" + Fence) <==> payload[0] == '['
  {
    FenceRoundTrip(tag, payload);
    AcceptedWhenUnfenced(Fence + tag + "\n" + payload + "\n" + Fence, payload);
  }

  lemma AcceptedWhenUnfenced(raw: string, payload: string)
    requires payload != [] && Trimmed(payload) && Unfenced(raw) == payload
    ensures Accepted(raw) <==> payload[0] == '['
  {
    StripTrimmed(payload);
  }

  /** An answer without a fence is accepted exactly when its stripped form opens with `[`. */
  lemma PlainAccepted(raw: string)
    requires !StartsWith(Strip(raw), Fence)
    ensures Accepted(raw) <==> StartsWith(Strip(raw), "[")
  {
  }
}
