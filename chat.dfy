/**
 * The data logic of one turn of the chat loop: the request envelope built
 * from the line typed at the prompt, and the text printed from the response,
 * with markdown code fences defused by `FormatJson`.
 */
module Chat {
  import opened Strings
  import opened Envelope

  datatype Option<+T> = None | Some(value: T)

  /** A markdown code fence, which the client never prints. */
  const Fence: string := "```"

  /** What each fence is printed as. */
  const Quotes: string := "'''"

  // ---------------------------------------------------------------------------
  // format_json
  // ---------------------------------------------------------------------------

  /** Replaces every code fence of the reply by three single quotes. */
  function FormatJson(jsonContent: string): (r: string)
    ensures |r| == |jsonContent|
  {
    Replace(jsonContent, Fence, Quotes)
  }

  /**
   * Only backticks are ever changed, and a changed backtick becomes a single
   * quote; every other character keeps its position and value.
   */
  lemma {:induction false} FormatJsonPointwise(s: string)
    ensures var r := FormatJson(s);
      forall i :: 0 <= i < |s| ==> r[i] == s[i] || (s[i] == '`' && r[i] == '\'')
    decreases |s|
  {
    if s == [] {
    } else if |s| >= 3 && s[..3] == Fence {
      FormatJsonPointwise(s[3..]);
      assert FormatJson(s) == Quotes + FormatJson(s[3..]);
      assert s[0] == '`' && s[1] == '`' && s[2] == '`' by {
        assert s[..3][0] == s[0] && s[..3][1] == s[1] && s[..3][2] == s[2];
      }
    } else {
      FormatJsonPointwise(s[1..]);
      assert FormatJson(s) == [s[0]] + FormatJson(s[1..]);
    }
  }

  /** No code fence survives formatting. */
  lemma {:induction false} FormatJsonNoFence(s: string)
    ensures !Occurs(Fence, FormatJson(s))
    decreases |s|
  {
    var r := FormatJson(s);
    if s == [] {
    } else if |s| >= 3 && s[..3] == Fence {
      var t := FormatJson(s[3..]);
      FormatJsonNoFence(s[3..]);
      assert r == Quotes + t;
      assert r[3..] == t;
      forall i | 0 <= i <= |r| - 3 ensures !MatchAt(r, Fence, i) {
        if i < 3 {
          assert r[i..i + 3][0] == r[i] == '\'';
        } else {
          MatchAtShift(r, Fence, 3, i - 3);
        }
      }
    } else {
      var t := FormatJson(s[1..]);
      FormatJsonNoFence(s[1..]);
      assert r == [s[0]] + t;
      assert r[1..] == t;
      forall i | 0 <= i <= |r| - 3 ensures !MatchAt(r, Fence, i) {
        if i == 0 {
          FormatJsonPointwise(s);
          var k :| 0 <= k < 3 && s[k] != '`' by {
            assert s[..3] != Fence;
            assert s[..3][0] == s[0] && s[..3][1] == s[1] && s[..3][2] == s[2];
          }
          assert r[0..3][k] == r[k] != '`';
        } else {
          MatchAtShift(r, Fence, 1, i - 1);
        }
      }
    }
  }

  /** Formatting twice is formatting once. */
  lemma FormatJsonIdempotent(s: string)
    ensures FormatJson(FormatJson(s)) == FormatJson(s)
  {
    FormatJsonNoFence(s);
    ReplaceNoMatch(FormatJson(s), Fence, Quotes);
  }

  /** Formatting leaves a text unchanged exactly when it holds no code fence. */
  lemma FormatJsonFixpoint(s: string)
    ensures FormatJson(s) == s <==> !Occurs(Fence, s)
  {
    if !Occurs(Fence, s) {
      ReplaceNoMatch(s, Fence, Quotes);
    }
    FormatJsonNoFence(s);
  }

  /** `n` copies of `c`. */
  function Repeat(c: char, n: nat): (r: string)
    ensures |r| == n && forall i :: 0 <= i < n ==> r[i] == c
  {
    if n == 0 then [] else [c] + Repeat(c, n - 1)
  }

  /**
   * A run of `3 * q + rem` backticks, `rem < 3`, becomes `q` groups of quotes
   * followed by the `rem` backticks left over at its end: matching goes left
   * to right and matches do not overlap.
   */
  lemma {:induction false} FormatJsonRun(q: nat, rem: nat)
    requires rem < 3
    ensures FormatJson(Repeat('`', 3 * q + rem)) == Repeat('\'', 3 * q) + Repeat('`', rem)
    decreases q
  {
    var s := Repeat('`', 3 * q + rem);
    if q == 0 {
      ReplaceNoMatch(s, Fence, Quotes);
    } else {
      assert s[..3] == Fence;
      assert s[3..] == Repeat('`', 3 * (q - 1) + rem);
      assert FormatJson(s) == Quotes + FormatJson(s[3..]);
      FormatJsonRun(q - 1, rem);
      assert Quotes + Repeat('\'', 3 * (q - 1)) == Repeat('\'', 3 * q);
    }
  }

  /**
   * Formatting splits at a boundary that no fence can straddle: one where the
   * left side ends, or the right side starts, with something other than a
   * backtick.
   */
  lemma {:induction false} FormatJsonSplit(a: string, b: string)
    requires a == [] || b == [] || a[|a| - 1] != '`' || b[0] != '`'
    ensures FormatJson(a + b) == FormatJson(a) + FormatJson(b)
    decreases |a|, 1
  {
    if a == [] {
      assert a + b == b;
    } else if |a| >= 3 && a[..3] == Fence {
      FormatJsonSplitFence(a, b);
    } else {
      FormatJsonSplitChar(a, b);
    }
  }

  /** The inductive step of `FormatJsonSplit` when `a` starts with a fence. */
  lemma {:induction false} FormatJsonSplitFence(a: string, b: string)
    requires |a| >= 3 && a[..3] == Fence
    requires b == [] || a[|a| - 1] != '`' || b[0] != '`'
    ensures FormatJson(a + b) == FormatJson(a) + FormatJson(b)
    decreases |a|, 0
  {
    FormatJsonSplit(a[3..], b);
    FormatJsonFenceAhead(a, b);
    FormatJsonStep(a);
    ConcatAssoc(Quotes, FormatJson(a[3..]), FormatJson(b));
  }

  /** The inductive step of `FormatJsonSplit` when `a` does not start with a fence. */
  lemma {:induction false} FormatJsonSplitChar(a: string, b: string)
    requires a != [] && !(|a| >= 3 && a[..3] == Fence)
    requires b == [] || a[|a| - 1] != '`' || b[0] != '`'
    ensures FormatJson(a + b) == FormatJson(a) + FormatJson(b)
    decreases |a|, 0
  {
    FormatJsonSplit(a[1..], b);
    FormatJsonCharAhead(a, b);
    FormatJsonStep(a);
    ConcatAssoc([a[0]], FormatJson(a[1..]), FormatJson(b));
  }

  /** A fence at the start of `a` is replaced first, whatever follows `a`. */
  lemma FormatJsonFenceAhead(a: string, b: string)
    requires |a| >= 3 && a[..3] == Fence
    ensures FormatJson(a + b) == Quotes + FormatJson(a[3..] + b)
  {
    var s := a + b;
    assert s[..3] == a[..3] && s[3..] == a[3..] + b;
    FormatJsonStep(s);
  }

  /** A first character of `a` that starts no fence is copied, when no fence straddles `a` and `b`. */
  lemma FormatJsonCharAhead(a: string, b: string)
    requires a != [] && !(|a| >= 3 && a[..3] == Fence)
    requires b == [] || a[|a| - 1] != '`' || b[0] != '`'
    ensures FormatJson(a + b) == [a[0]] + FormatJson(a[1..] + b)
  {
    var s := a + b;
    NoFenceAcross(a, b);
    assert s[1..] == a[1..] + b;
    FormatJsonStep(s);
  }

  /** One step of the left-to-right scan: a fence, or a single character. */
  lemma FormatJsonStep(s: string)
    requires s != []
    ensures |s| >= 3 && s[..3] == Fence ==> FormatJson(s) == Quotes + FormatJson(s[3..])
    ensures !(|s| >= 3 && s[..3] == Fence) ==> FormatJson(s) == [s[0]] + FormatJson(s[1..])
  {
  }

  /** A text that does not start with a fence keeps that when extended across such a boundary. */
  lemma NoFenceAcross(a: string, b: string)
    requires a != [] && !(|a| >= 3 && a[..3] == Fence)
    requires b == [] || a[|a| - 1] != '`' || b[0] != '`'
    ensures !(|a + b| >= 3 && (a + b)[..3] == Fence)
  {
    var s := a + b;
    if |s| >= 3 {
      var j := if |a| >= 3 then 0 else if a[|a| - 1] != '`' then |a| - 1 else |a|;
      if |a| >= 3 {
        assert s[..3] == a[..3];
      } else {
        assert s[j] != '`';
        assert s[..3][j] == s[j];
      }
    }
  }

  /**
   * A maximal run of `3 * q + rem` backticks, `rem < 3`, inside a reply is
   * formatted on its own: `q` groups of quotes then `rem` backticks, while the
   * text around it is formatted independently.
   */
  lemma FormatJsonRunInText(before: string, q: nat, rem: nat, after: string)
    requires rem < 3
    requires before == [] || before[|before| - 1] != '`'
    requires after == [] || after[0] != '`'
    ensures FormatJson(before + Repeat('`', 3 * q + rem) + after)
         == FormatJson(before) + Repeat('\'', 3 * q) + Repeat('`', rem) + FormatJson(after)
  {
    var run := Repeat('`', 3 * q + rem);
    FormatJsonSplitAround(before, run, after);
    FormatJsonRun(q, rem);
    ConcatAssoc(FormatJson(before), Repeat('\'', 3 * q), Repeat('`', rem));
  }

  /** A middle piece bounded on both sides by non-backticks is formatted on its own. */
  lemma FormatJsonSplitAround(before: string, mid: string, after: string)
    requires before == [] || before[|before| - 1] != '`'
    requires after == [] || after[0] != '`'
    ensures FormatJson(before + mid + after) == FormatJson(before) + FormatJson(mid) + FormatJson(after)
  {
    ConcatAssoc(before, mid, after);
    FormatJsonSplit(before, mid + after);
    FormatJsonSplit(mid, after);
  }

  /** Four backticks after a letter: the first three are replaced, the fourth is kept. */
  lemma FormatJsonExample()
    ensures FormatJson("a````") == "a'''`"
  {
    var s: string := "a````";
    assert s[1..] == Repeat('`', 4);
    FormatJsonRun(1, 1);
    assert FormatJson(s) == [s[0]] + FormatJson(s[1..]);
  }

  // ---------------------------------------------------------------------------
  // Request envelope
  // ---------------------------------------------------------------------------

  /** The role, and the part count, of a single-turn user request. */
  predicate IsSingleUserTurn(req: GenerateContentRequest) {
    && |req.contents| == 1
    && req.contents[0].role == "user"
    && |req.contents[0].parts| == 1
  }

  /** The text a single-turn request carries. */
  function Prompt(req: GenerateContentRequest): string
    requires IsSingleUserTurn(req)
  {
    req.contents[0].parts[0].text
  }

  /**
   * The request sent for a line read at the prompt: one content with role
   * "user" and one part, whose text is the line with its whitespace ends
   * removed.
   */
  function BuildRequest(userText: string): (req: GenerateContentRequest)
    ensures IsSingleUserTurn(req)
    ensures TrimmedAt(Prompt(req), userText, |userText| - |TrimStart(userText, IsWhitespace)|, IsWhitespace)
  {
    GenerateContentRequest([Content([Part(Trim(userText, IsWhitespace))], "user")])
  }

  /** Typing the sent text again yields the same request. */
  lemma BuildRequestStable(userText: string)
    ensures BuildRequest(Prompt(BuildRequest(userText))) == BuildRequest(userText)
  {
  }

  /** Lines that differ only in surrounding whitespace yield the same request. */
  lemma BuildRequestIgnoresPadding(userText: string, left: string, right: string)
    requires forall k :: 0 <= k < |left| ==> IsWhitespace(left[k])
    requires forall k :: 0 <= k < |right| ==> IsWhitespace(right[k])
    ensures BuildRequest(left + userText + right) == BuildRequest(userText)
  {
    TrimIgnoresPadding(userText, left, right, IsWhitespace);
  }

  // ---------------------------------------------------------------------------
  // Output
  // ---------------------------------------------------------------------------

  /**
   * What is printed for a decoded response: the text of the first part of
   * the first candidate, formatted and framed by newlines. `None` where the
   * response has no candidate or that candidate no part: the client has then
   * printed only the leading newline and stops on an out-of-bounds index.
   */
  function RenderOutput(resp: AIResponse): (out: Option<string>)
    ensures out.Some? <==> |resp.candidates| > 0 && |resp.candidates[0].content.parts| > 0
    ensures out.Some? ==>
      var text := resp.candidates[0].content.parts[0].text;
      && |out.value| == |text| + 2
      && out.value[0] == '\n'
      && out.value[|out.value| - 1] == '\n'
      && !Occurs(Fence, out.value)
      && forall i :: 0 <= i < |text| ==>
           out.value[i + 1] == text[i] || (text[i] == '`' && out.value[i + 1] == '\'')
  {
    if |resp.candidates| == 0 || |resp.candidates[0].content.parts| == 0 then
      None
    else
      var text := resp.candidates[0].content.parts[0].text;
      FormatJsonNoFence(text);
      FormatJsonPointwise(text);
      NewlineFramedNoFence(FormatJson(text));
      Some("\n" + FormatJson(text) + "\n")
  }

  /** Framing a fence-free text by newlines creates no fence. */
  lemma NewlineFramedNoFence(f: string)
    requires !Occurs(Fence, f)
    ensures !Occurs(Fence, "\n" + f + "\n")
  {
    var w := "\n" + f + "\n";
    forall i | 0 <= i <= |w| - 3 ensures !MatchAt(w, Fence, i) {
      if i == 0 {
        assert w[0..3][0] == w[0];
      } else if i + 3 == |w| {
        assert w[i..i + 3][2] == w[|w| - 1];
      } else {
        assert w[i..i + 3] == f[i - 1..i + 2];
        assert !MatchAt(f, Fence, i - 1);
      }
    }
  }

  /** A reply without code fences is printed as it is, framed by newlines. */
  lemma RenderOutputVerbatim(resp: AIResponse)
    requires |resp.candidates| > 0 && |resp.candidates[0].content.parts| > 0
    requires !Occurs(Fence, resp.candidates[0].content.parts[0].text)
    ensures RenderOutput(resp) == Some("\n" + resp.candidates[0].content.parts[0].text + "\n")
  {
    FormatJsonFixpoint(resp.candidates[0].content.parts[0].text);
  }
}
