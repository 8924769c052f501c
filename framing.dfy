/**
 * Newline framing of the server's receive buffer: the buffer is cut at each
 * '\n' into complete lines, the text after the last '\n' stays buffered,
 * and each complete line is trimmed of white space before it is decoded.
 */
module Framing {

  /**
   * The characters .NET's Char.IsWhiteSpace accepts, which String.Trim
   * removes: the control characters U+0009 to U+000D and U+0085, and the
   * members of the Unicode categories Zs, Zl and Zp.
   */
  predicate IsWhiteSpace(c: char)
  {
    || ('\t' <= c <= '\r')
    || c == ' ' || c == '\U{0085}' || c == '\U{00A0}' || c == '\U{1680}'
    || ('\U{2000}' <= c <= '\U{200A}')
    || c == '\U{2028}' || c == '\U{2029}' || c == '\U{202F}' || c == '\U{205F}' || c == '\U{3000}'
  }

  predicate AllWhiteSpace(s: string)
  {
    forall k :: 0 <= k < |s| ==> IsWhiteSpace(s[k])
  }

  /** Neither end of `s` is white space. */
  predicate TrimmedEnds(s: string)
  {
    |s| == 0 || (!IsWhiteSpace(s[0]) && !IsWhiteSpace(s[|s| - 1]))
  }

  /** The length of the white-space prefix of `s`. */
  function LeadingWhiteSpace(s: string): (n: nat)
    ensures n <= |s|
    ensures forall k :: 0 <= k < n ==> IsWhiteSpace(s[k])
    ensures n < |s| ==> !IsWhiteSpace(s[n])
  {
    if |s| > 0 && IsWhiteSpace(s[0]) then
      var m := LeadingWhiteSpace(s[1..]);
      assert forall k :: 0 < k < m + 1 ==> s[k] == s[1..][k - 1];
      1 + m
    else
      0
  }

  /** Where the white-space suffix of `s` begins. */
  function TrailingWhiteSpace(s: string): (m: nat)
    ensures m <= |s|
    ensures forall k :: m <= k < |s| ==> IsWhiteSpace(s[k])
    ensures 0 < m ==> !IsWhiteSpace(s[m - 1])
  {
    if |s| > 0 && IsWhiteSpace(s[|s| - 1]) then
      var m := TrailingWhiteSpace(s[..|s| - 1]);
      assert forall k :: m <= k < |s| - 1 ==> s[k] == s[..|s| - 1][k];
      m
    else
      |s|
  }

  /** String.Trim: `s` with its leading and trailing white space removed; neither end of the result is white space. */
  function Trim(s: string): (r: string)
    ensures TrimmedEnds(r)
    ensures |r| <= |s|
  {
    var i := LeadingWhiteSpace(s);
    if i == |s| then
      []
    else
      var j := TrailingWhiteSpace(s);
      assert !IsWhiteSpace(s[i]);
      assert i < j;
      s[i..j]
  }

  /** What Trim removes is white space at either end, and what it keeps is a slice of `s`. */
  lemma TrimIsSlice(s: string)
    ensures exists i, j ::
      && 0 <= i <= j <= |s| && Trim(s) == s[i..j]
      && (forall k :: 0 <= k < i ==> IsWhiteSpace(s[k]))
      && (forall k :: j <= k < |s| ==> IsWhiteSpace(s[k]))
  {
    var i := LeadingWhiteSpace(s);
    if i == |s| {
      assert Trim(s) == s[|s|..|s|];
    } else {
      var j := TrailingWhiteSpace(s);
      assert !IsWhiteSpace(s[i]);
      assert i < j;
      assert Trim(s) == s[i..j];
    }
  }

  /** Trimming a line without '\n' gives a message without '\n'. */
  lemma TrimKeepsNewlineFree(s: string)
    requires '\n' !in s
    ensures '\n' !in Trim(s)
  {
    TrimIsSlice(s);
    var i, j :| 0 <= i <= j <= |s| && Trim(s) == s[i..j];
    forall k | 0 <= k < j - i ensures s[i..j][k] != '\n' {
      assert s[i..j][k] == s[i + k];
    }
  }

  lemma {:induction false} LeadingOfPadded(w: string, u: string)
    requires AllWhiteSpace(w)
    requires |u| > 0 && !IsWhiteSpace(u[0])
    ensures LeadingWhiteSpace(w + u) == |w|
    decreases |w|
  {
    if |w| > 0 {
      assert (w + u)[0] == w[0];
      assert (w + u)[1..] == w[1..] + u;
      LeadingOfPadded(w[1..], u);
    } else {
      assert w + u == u;
    }
  }

  lemma {:induction false} TrailingOfPadded(u: string, w: string)
    requires AllWhiteSpace(w)
    requires |u| > 0 && !IsWhiteSpace(u[|u| - 1])
    ensures TrailingWhiteSpace(u + w) == |u|
    decreases |w|
  {
    if |w| > 0 {
      var s := u + w;
      assert s[|s| - 1] == w[|w| - 1];
      assert s[..|s| - 1] == u + w[..|w| - 1];
      TrailingOfPadded(u, w[..|w| - 1]);
    } else {
      assert u + w == u;
    }
  }

  lemma {:induction false} LeadingOfBlank(w: string)
    requires AllWhiteSpace(w)
    ensures LeadingWhiteSpace(w) == |w|
    decreases |w|
  {
    if |w| > 0 {
      LeadingOfBlank(w[1..]);
    }
  }

  /** Trim recovers the text from any white-space padding: its reference characterisation. */
  lemma TrimPadded(w1: string, t: string, w2: string)
    requires AllWhiteSpace(w1) && AllWhiteSpace(w2) && TrimmedEnds(t)
    ensures Trim(w1 + t + w2) == t
  {
    var s := w1 + t + w2;
    if |t| == 0 {
      assert AllWhiteSpace(s) by {
        forall k | 0 <= k < |s| ensures IsWhiteSpace(s[k]) {
          if k < |w1| { assert s[k] == w1[k]; } else { assert s[k] == w2[k - |w1|]; }
        }
      }
      LeadingOfBlank(s);
    } else {
      assert s == w1 + (t + w2);
      LeadingOfPadded(w1, t + w2);
      TrailingOfPadded(w1 + t, w2);
      assert s[|w1|..|w1| + |t|] == t;
    }
  }

  /** Trimming twice trims nothing more. */
  lemma TrimIdempotent(s: string)
    ensures Trim(Trim(s)) == Trim(s)
  {
    TrimPadded([], Trim(s), []);
    assert [] + Trim(s) + [] == Trim(s);
  }

  /** String.IndexOf("\n"), with -1 when there is none. */
  function IndexOfNewline(s: string): (i: int)
    ensures -1 <= i < |s|
    ensures i == -1 <==> '\n' !in s
    ensures 0 <= i ==> s[i] == '\n' && '\n' !in s[..i]
  {
    if |s| == 0 then -1
    else if s[0] == '\n' then 0
    else
      var j := IndexOfNewline(s[1..]);
      if j < 0 then -1
      else
        assert s[..j + 1] == [s[0]] + s[1..][..j];
        j + 1
  }

  /** The first '\n' is where IndexOfNewline finds it. */
  lemma {:induction false} IndexOfNewlineAt(s: string, p: int)
    requires 0 <= p < |s| && s[p] == '\n' && '\n' !in s[..p]
    ensures IndexOfNewline(s) == p
    decreases p
  {
    if p > 0 {
      assert s[0] == s[..p][0];
      assert s[1..][..p - 1] == s[1..p];
      assert forall k :: 0 <= k < p - 1 ==> s[1..p][k] == s[..p][k + 1];
      IndexOfNewlineAt(s[1..], p - 1);
    }
  }

  /** Cutting a buffer at its first '\n' leaves one newline fewer. */
  lemma NewlineCountSplit(s: string, i: int)
    requires 0 <= i < |s| && s[i] == '\n' && '\n' !in s[..i]
    ensures multiset(s)['\n'] == 1 + multiset(s[i + 1..])['\n']
  {
    var pre, post := s[..i], s[i + 1..];
    assert s == pre + ([s[i]] + post);
    assert multiset(s) == multiset(pre) + (multiset([s[i]]) + multiset(post));
    assert multiset(pre)['\n'] == 0;
  }

  /** The complete lines cut from a buffer, and what stays buffered. */
  datatype Framed = Framed(lines: seq<string>, rest: string)

  /** Every line followed by its '\n', concatenated. */
  function Joined(lines: seq<string>): string
  {
    if |lines| == 0 then [] else lines[0] + "\n" + Joined(lines[1..])
  }

  predicate NoNewlines(lines: seq<string>)
  {
    forall k :: 0 <= k < |lines| ==> '\n' !in lines[k]
  }

  /** The framing of a buffer, cutting at the first '\n' as often as there is one. */
  function Frame(s: string): Framed
    decreases |s|
  {
    var i := IndexOfNewline(s);
    if i < 0 then
      Framed([], s)
    else
      var f := Frame(s[i + 1..]);
      Framed([s[..i]] + f.lines, f.rest)
  }

  /** A string is its part before position `i`, the character there and its part after. */
  lemma CutAt(s: string, i: int)
    requires 0 <= i < |s|
    ensures s[..i] + [s[i]] + s[i + 1..] == s
  {
    assert s[..i + 1] == s[..i] + [s[i]];
    assert s[..i + 1] + s[i + 1..] == s;
  }

  /** Joining a line in front of further lines. */
  lemma JoinedCons(l: string, lines: seq<string>)
    ensures Joined([l] + lines) == l + "\n" + Joined(lines)
  {
    assert ([l] + lines)[1..] == lines;
  }

  /** A buffer without '\n' frames into no lines and stays buffered whole. */
  lemma FrameOfNewlineFree(s: string)
    requires '\n' !in s
    ensures Frame(s) == Framed([], s)
  {
  }

  /** One cut of Frame: the first line, then the framing of what follows its '\n'. */
  lemma FrameCut(s: string, i: int)
    requires i == IndexOfNewline(s) && 0 <= i
    ensures Frame(s) == Framed([s[..i]] + Frame(s[i + 1..]).lines, Frame(s[i + 1..]).rest)
  {
  }

  /** No line framing yields, and not what stays buffered, holds '\n'. */
  lemma {:induction false} FrameNewlineFree(s: string)
    ensures '\n' !in Frame(s).rest
    ensures NoNewlines(Frame(s).lines)
    decreases |s|
  {
    var i := IndexOfNewline(s);
    if i >= 0 {
      var t := s[i + 1..];
      FrameNewlineFree(t);
      FrameCut(s, i);
      var lines := Frame(s).lines;
      forall k | 0 < k < |lines| ensures '\n' !in lines[k] {
        assert lines[k] == Frame(t).lines[k - 1];
      }
    }
  }

  /**
   * Cutting the first line off a buffer whose framing completes that of
   * `whole` after `lines`: the rest of the buffer completes it after one more line.
   */
  lemma CutLine(whole: string, lines: seq<string>, b: string, i: int)
    requires Frame(whole).lines == lines + Frame(b).lines && Frame(whole).rest == Frame(b).rest
    requires i == IndexOfNewline(b) && 0 <= i
    ensures Frame(whole).lines == (lines + [b[..i]]) + Frame(b[i + 1..]).lines
    ensures Frame(whole).rest == Frame(b[i + 1..]).rest
  {
    FrameCut(b, i);
    assert lines + ([b[..i]] + Frame(b[i + 1..]).lines) == (lines + [b[..i]]) + Frame(b[i + 1..]).lines;
  }

  lemma RejoinCut(s: string, i: int, j: string, r: string)
    requires 0 <= i < |s| && s[i] == '\n' && j + r == s[i + 1..]
    ensures (s[..i] + "\n" + j) + r == s
  {
    CutAt(s, i);
  }

  /** Framing loses nothing: the lines rejoined with their newlines, then the rest, are the buffer. */
  lemma {:induction false} FrameLossless(s: string)
    ensures Joined(Frame(s).lines) + Frame(s).rest == s
    decreases |s|
  {
    var i := IndexOfNewline(s);
    if i >= 0 {
      var t := s[i + 1..];
      FrameLossless(t);
      FrameCut(s, i);
      JoinedCons(s[..i], Frame(t).lines);
      RejoinCut(s, i, Joined(Frame(t).lines), Frame(t).rest);
    }
  }

  /** Framing yields one line per '\n' of the buffer. */
  lemma {:induction false} FrameCount(s: string)
    ensures |Frame(s).lines| == multiset(s)['\n']
    decreases |s|
  {
    var i := IndexOfNewline(s);
    if i >= 0 {
      FrameCount(s[i + 1..]);
      FrameCut(s, i);
      NewlineCountSplit(s, i);
    } else {
      assert '\n' !in multiset(s);
    }
  }

  lemma {:induction false} JoinedAppend(l1: seq<string>, l2: seq<string>)
    ensures Joined(l1 + l2) == Joined(l1) + Joined(l2)
    decreases |l1|
  {
    if |l1| > 0 {
      assert (l1 + l2)[1..] == l1[1..] + l2;
      JoinedAppend(l1[1..], l2);
    } else {
      assert l1 + l2 == l2;
    }
  }

  /** In a line without '\n' followed by '\n' and more text, the first '\n' ends the line. */
  lemma FirstNewlineEndsLine(l: string, j: string, r: string)
    requires '\n' !in l
    ensures IndexOfNewline((l + "\n" + j) + r) == |l|
    ensures ((l + "\n" + j) + r)[..|l|] == l
    ensures ((l + "\n" + j) + r)[|l| + 1..] == j + r
  {
    var s := (l + "\n" + j) + r;
    assert s == l + ("\n" + (j + r));
    assert s[..|l|] == l;
    IndexOfNewlineAt(s, |l|);
  }

  /**
   * Framing is the inverse of joining: lines without '\n' joined with their
   * newlines and followed by a newline-free rest frame back into themselves.
   */
  lemma {:induction false} FrameJoined(lines: seq<string>, rest: string)
    requires NoNewlines(lines) && '\n' !in rest
    ensures Frame(Joined(lines) + rest) == Framed(lines, rest)
    decreases |lines|
  {
    if |lines| > 0 {
      var l, more := lines[0], lines[1..];
      assert lines == [l] + more;
      assert NoNewlines(more) by {
        forall k | 0 <= k < |more| ensures '\n' !in more[k] {
          assert more[k] == lines[k + 1];
        }
      }
      JoinedCons(l, more);
      FirstNewlineEndsLine(l, Joined(more), rest);
      FrameCut(Joined(lines) + rest, |l|);
      FrameJoined(more, rest);
    }
  }

  lemma NoNewlinesAppend(l1: seq<string>, l2: seq<string>)
    requires NoNewlines(l1) && NoNewlines(l2)
    ensures NoNewlines(l1 + l2)
  {
    forall k | 0 <= k < |l1 + l2| ensures '\n' !in (l1 + l2)[k] {
      if k < |l1| { assert (l1 + l2)[k] == l1[k]; }
      else { assert (l1 + l2)[k] == l2[k - |l1|]; }
    }
  }

  lemma Regroup(a: string, b: string, j1: string, r1: string, j2: string, r2: string)
    requires j1 + r1 == a && j2 + r2 == r1 + b
    ensures a + b == (j1 + j2) + r2
  {
    calc {
      a + b;
      (j1 + r1) + b;
      j1 + (r1 + b);
      j1 + (j2 + r2);
      (j1 + j2) + r2;
    }
  }

  /**
   * Chunking invariance: framing a buffer extended by more text gives the
   * lines of the buffer, then the lines of its rest extended by that text.
   * However the byte stream is split across reads, the same lines come out
   * and the same text stays buffered.
   */
  lemma FrameAppend(a: string, b: string)
    ensures Frame(a + b).lines == Frame(a).lines + Frame(Frame(a).rest + b).lines
    ensures Frame(a + b).rest == Frame(Frame(a).rest + b).rest
  {
    var f1 := Frame(a);
    var f2 := Frame(f1.rest + b);
    FrameLossless(a);
    FrameLossless(f1.rest + b);
    Regroup(a, b, Joined(f1.lines), f1.rest, Joined(f2.lines), f2.rest);
    JoinedAppend(f1.lines, f2.lines);
    FrameNewlineFree(a);
    FrameNewlineFree(f1.rest + b);
    NoNewlinesAppend(f1.lines, f2.lines);
    FrameJoined(f1.lines + f2.lines, f2.rest);
  }

  /** The position of the first empty chunk (a zero-byte read), or the number of chunks when there is none. */
  function FirstEmpty(chunks: seq<string>): (n: nat)
    ensures n <= |chunks|
    ensures n < |chunks| ==> |chunks[n]| == 0
    ensures forall k :: 0 <= k < n ==> |chunks[k]| > 0
  {
    if |chunks| == 0 then 0
    else if |chunks[0]| == 0 then 0
    else
      var n := FirstEmpty(chunks[1..]);
      assert forall k :: 1 <= k < n + 1 ==> chunks[k] == chunks[1..][k - 1];
      n + 1
  }

  /** A chunk at or before the first empty one that is itself empty is the first empty one. */
  lemma FirstEmptyAt(chunks: seq<string>, i: nat)
    requires i <= FirstEmpty(chunks) && i < |chunks| && |chunks[i]| == 0
    ensures i == FirstEmpty(chunks)
  {
  }

  /** The concatenation of a sequence of received chunks. */
  function Concat(chunks: seq<string>): string
  {
    if |chunks| == 0 then [] else Concat(chunks[..|chunks| - 1]) + chunks[|chunks| - 1]
  }

  /**
   * Feeding the next chunk of a stream: framing the stream up to and
   * including chunk `n` continues the framing up to chunk `n` with the
   * framing of its rest extended by the chunk.
   */
  lemma FeedChunk(start: string, chunks: seq<string>, n: int)
    requires 0 <= n < |chunks|
    ensures var before, after := start + Concat(chunks[..n]), start + Concat(chunks[..n + 1]);
      && after == before + chunks[n]
      && Frame(after).rest == Frame(Frame(before).rest + chunks[n]).rest
      && TrimAll(Frame(after).lines) == TrimAll(Frame(before).lines) + TrimAll(Frame(Frame(before).rest + chunks[n]).lines)
  {
    var before := start + Concat(chunks[..n]);
    assert chunks[..n + 1][..n] == chunks[..n];
    assert start + Concat(chunks[..n + 1]) == before + chunks[n];
    FrameAppend(before, chunks[n]);
    TrimAllAppend(Frame(before).lines, Frame(Frame(before).rest + chunks[n]).lines);
  }

  /** The messages handed on for decoding: every complete line, trimmed. */
  function TrimAll(lines: seq<string>): (ms: seq<string>)
    ensures |ms| == |lines|
    ensures forall k {:trigger ms[k]} :: 0 <= k < |lines| ==> ms[k] == Trim(lines[k])
  {
    if |lines| == 0 then [] else TrimAll(lines[..|lines| - 1]) + [Trim(lines[|lines| - 1])]
  }

  lemma TrimAllSnoc(lines: seq<string>, l: string)
    ensures TrimAll(lines + [l]) == TrimAll(lines) + [Trim(l)]
  {
    assert (lines + [l])[..|lines|] == lines;
  }

  /** Trimming batches of lines is trimming their concatenation. */
  lemma {:induction false} TrimAllAppend(l1: seq<string>, l2: seq<string>)
    ensures TrimAll(l1 + l2) == TrimAll(l1) + TrimAll(l2)
    decreases |l2|
  {
    if |l2| == 0 {
      assert l1 + l2 == l1;
    } else {
      var init, last := l2[..|l2| - 1], l2[|l2| - 1];
      assert l2 == init + [last];
      assert l1 + l2 == (l1 + init) + [last];
      TrimAllAppend(l1, init);
      TrimAllSnoc(l1 + init, last);
      TrimAllSnoc(init, last);
    }
  }

  /** No message handed on for decoding holds '\n'. */
  lemma MessagesNewlineFree(s: string)
    ensures forall m :: m in TrimAll(Frame(s).lines) ==> '\n' !in m
  {
    FrameNewlineFree(s);
    var lines := Frame(s).lines;
    forall m | m in TrimAll(lines) ensures '\n' !in m {
      var k :| 0 <= k < |lines| && TrimAll(lines)[k] == m;
      TrimKeepsNewlineFree(lines[k]);
    }
  }
}
