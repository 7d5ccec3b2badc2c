/** `data_event_handle` of pipeline/conn.c: a stream of characters is cut into messages at newlines,
    however the stream is divided among the reads. */
module Framing {
  import opened Arithmetic

  /** What the server does with the characters it reads: it hands a message to the handler, or tells
      the client that a line is too long. */
  datatype Event = Message(text: string) | TooLong

  const MSG_CMD_TOO_LONG := "Command too long."

  datatype Frame = Frame(pending: string, events: seq<Event>)

  /** One character. The one that does not fit the buffer is dropped together with the buffer. */
  function Feed(f: Frame, c: char, max: nat): Frame {
    if c == '\n' then Frame("", f.events + [Message(f.pending)])
    else if |f.pending| < max then f.(pending := f.pending + [c])
    else Frame("", f.events + [TooLong])
  }

  function FeedAll(f: Frame, s: string, max: nat): Frame {
    if s == "" then f else Feed(FeedAll(f, s[..|s| - 1], max), s[|s| - 1], max)
  }

  function FeedChunks(f: Frame, chunks: seq<string>, max: nat): Frame {
    if chunks == [] then f
    else FeedAll(FeedChunks(f, chunks[..|chunks| - 1], max), chunks[|chunks| - 1], max)
  }

  function Flatten(chunks: seq<string>): string {
    if chunks == [] then "" else Flatten(chunks[..|chunks| - 1]) + chunks[|chunks| - 1]
  }

  // ---- What the client gets to read ----

  /** An answer that is not empty is written. */
  function NonEmpty(reply: string): seq<string> {
    if reply == "" then [] else [reply]
  }

  function Replies(events: seq<Event>, handler: string -> string): seq<string> {
    if events == [] then []
    else
      var n := |events| - 1;
      Replies(events[..n], handler)
      + match events[n]
        case Message(text) => NonEmpty(handler(text))
        case TooLong => [MSG_CMD_TOO_LONG]
  }

  /** What is written in answer to the characters of `s`, from state `f` on. */
  function AnswersTo(f: Frame, s: string, handler: string -> string, max: nat): seq<string> {
    Replies(FeedAll(Frame(f.pending, []), s, max).events, handler)
  }

  class Conn {
    const msgInLenMax: nat
    /** One more character than the longest message, for the terminator. */
    const msgIn: array<char>
    var msgInLen: nat
    /** The client has closed its end, so that writing to it fails. */
    var broken: bool
    ghost var events: seq<Event>
    /** What has been written to the client. */
    ghost var written: seq<string>

    ghost predicate Valid()
      reads this
    {
      msgIn.Length == msgInLenMax + 1 && msgInLen <= msgInLenMax
    }

    ghost function State(): Frame
      reads this, msgIn
      requires Valid()
    {
      Frame(msgIn[..msgInLen], events)
    }

    constructor (msgInLenMax: nat)
      ensures Valid() && fresh(msgIn) && State() == Frame("", []) && this.msgInLenMax == msgInLenMax
      ensures written == []
    {
      this.msgInLenMax := msgInLenMax;
      msgIn := new char[msgInLenMax + 1](_ => '\0');
      msgInLen, broken, events, written := 0, false, [], [];
    }

    /** `write` to the client. */
    method Write(text: string) returns (ok: bool)
      modifies this`broken, this`written
      ensures old(broken) ==> !ok
      ensures written == if ok then old(written) + [text] else old(written)
    {
      var fails: bool :| broken ==> fails;
      broken := fails;
      ok := !fails;
      if ok {
        written := written + [text];
      }
    }

    /** One character of the buffer. A newline has the handler's answer to the pending characters written,
        unless it is empty, and a character that does not fit a complaint. When a write fails, the message
        has been handled, or the line found too long, but what was pending stays pending. */
    method Take(c: char, handler: string -> string) returns (ok: bool)
      requires Valid()
      modifies this, msgIn
      ensures Valid()
      ensures ok ==> State() == Feed(old(State()), c, msgInLenMax)
      ensures !ok ==> State() == Unanswered(old(State()), c, msgInLenMax)
      ensures !ok ==> Answers(old(State()), c, msgInLenMax)
      ensures var line := old(msgIn[..msgInLen]);
        ok && c == '\n' ==> written == old(written) + if handler(line) == "" then [] else [handler(line)]
      ensures ok && c != '\n' ==>
        written == old(written) + if old(msgInLen) < msgInLenMax then [] else ["Command too long."]
      ensures !ok ==> written == old(written)
    {
      ok := true;
      ghost var was := State();
      if c == '\n' {
        msgIn[msgInLen] := '\0';
        assert msgIn[..msgInLen] == was.pending;
        events := events + [Message(was.pending)];
        var reply := handler(msgIn[..msgInLen]);
        if reply != "" {
          ok := Write(reply);
          if !ok {
            return;
          }
        }
        msgInLen := 0;
      } else if msgInLen < msgInLenMax {
        msgIn[msgInLen] := c;
        msgInLen := msgInLen + 1;
        assert msgIn[..msgInLen] == was.pending + [c];
      } else {
        events := events + [TooLong];
        ok := Write(MSG_CMD_TOO_LONG);
        if !ok {
          return;
        }
        msgInLen := 0;
      }
    }

    /** One read of `len` characters and what follows: the answers to the characters, and the prompt. It
        fails on a character that calls for an answer, or at the prompt behind them all. */
    method DataEvent(buf: string, prompt: string, handler: string -> string) returns (ok: bool)
      requires Valid()
      modifies this, msgIn
      ensures Valid()
      ensures ok ==> State() == FeedAll(old(State()), buf, msgInLenMax)
      ensures ok ==>
        written == old(written) + AnswersTo(old(State()), buf, handler, msgInLenMax) + if buf == "" then [] else [prompt]
      ensures !ok ==> exists k :: FailedAt(old(State()), buf, handler, msgInLenMax, k, State(), old(written), written)
    {
      hide Replies;
      ghost var f, w := State(), written;
      NothingYet(f, handler, msgInLenMax);
      if buf == "" {
        return true;
      }
      for i := 0 to |buf|
        invariant Valid() && State() == FeedAll(f, buf[..i], msgInLenMax)
        invariant written == w + AnswersTo(f, buf[..i], handler, msgInLenMax)
      {
        OneMore(f, buf, i, handler, msgInLenMax);
        ok := Take(buf[i], handler);
        if !ok {
          assert FailedAt(f, buf, handler, msgInLenMax, i, State(), w, written);
          return;
        }
      }
      assert buf[..|buf|] == buf;
      ok := Write(prompt);
      assert !ok ==> FailedAt(f, buf, handler, msgInLenMax, |buf|, State(), w, written);
    }
  }

  /** The character ends a message, or does not fit. */
  predicate Answers(f: Frame, c: char, max: nat) {
    c == '\n' || |f.pending| >= max
  }

  /** What is left when the answer to a character could not be written. */
  function Unanswered(f: Frame, c: char, max: nat): Frame {
    Feed(f, c, max).(pending := f.pending)
  }

  /** The write that failed was the one in answer to character `k`, or that of the prompt. */
  ghost predicate FailedAt(f: Frame, buf: string, handler: string -> string, max: nat, k: nat,
                           now: Frame, was: seq<string>, written: seq<string>)
  {
    k <= |buf| &&
    var before := FeedAll(f, buf[..k], max);
    && written == was + AnswersTo(f, buf[..k], handler, max)
    && (k == |buf| ==> now == before)
    && (k < |buf| ==> Answers(before, buf[k], max) && now == Unanswered(before, buf[k], max))
  }

  lemma NothingYet(f: Frame, handler: string -> string, max: nat)
    ensures AnswersTo(f, "", handler, max) == []
  {
  }

  /** The events that were there before make no difference. */
  lemma {:induction false} EventsAreAppended(f: Frame, s: string, max: nat)
    ensures var g := FeedAll(Frame(f.pending, []), s, max);
      FeedAll(f, s, max) == Frame(g.pending, f.events + g.events)
  {
    if s != "" {
      EventsAreAppended(f, s[..|s| - 1], max);
    }
  }

  /** One more character: a newline is answered with what the handler says, an overflow with the
      complaint, and any other character not at all. */
  lemma OneMore(f: Frame, buf: string, i: nat, handler: string -> string, max: nat)
    requires i < |buf|
    ensures FeedAll(f, buf[..i + 1], max) == Feed(FeedAll(f, buf[..i], max), buf[i], max)
    ensures var pending := FeedAll(f, buf[..i], max).pending;
      AnswersTo(f, buf[..i + 1], handler, max) == AnswersTo(f, buf[..i], handler, max)
        + if buf[i] == '\n' then NonEmpty(handler(pending))
          else if |pending| < max then [] else [MSG_CMD_TOO_LONG]
  {
    assert buf[..i + 1][..i] == buf[..i];
    EventsAreAppended(f, buf[..i], max);
    var g := FeedAll(Frame(f.pending, []), buf[..i], max);
    var h := Feed(g, buf[i], max);
    assert FeedAll(Frame(f.pending, []), buf[..i + 1], max) == h;
    assert h.events != g.events ==> h.events[..|g.events|] == g.events;
  }

  // ---- Independence of the reads ----

  lemma {:induction false} FeedConcat(f: Frame, a: string, b: string, max: nat)
    ensures FeedAll(f, a + b, max) == FeedAll(FeedAll(f, a, max), b, max)
  {
    if b == "" {
      assert a + b == a;
    } else {
      assert (a + b)[..|a + b| - 1] == a + b[..|b| - 1];
      FeedConcat(f, a, b[..|b| - 1], max);
    }
  }

  lemma {:induction false} ChunksAreTheStream(f: Frame, chunks: seq<string>, max: nat)
    ensures FeedChunks(f, chunks, max) == FeedAll(f, Flatten(chunks), max)
  {
    if chunks != [] {
      var n := |chunks| - 1;
      ChunksAreTheStream(f, chunks[..n], max);
      FeedConcat(f, Flatten(chunks[..n]), chunks[n], max);
    }
  }

  /** Two divisions of the same stream lead to the same messages and the same pending characters. */
  lemma ReadsDoNotMatter(f: Frame, chunks: seq<string>, others: seq<string>, max: nat)
    requires Flatten(chunks) == Flatten(others)
    ensures FeedChunks(f, chunks, max) == FeedChunks(f, others, max)
  {
    ChunksAreTheStream(f, chunks, max);
    ChunksAreTheStream(f, others, max);
  }

  /** The answers to several reads, without the prompts between them. */
  function AnswersToReads(f: Frame, chunks: seq<string>, handler: string -> string, max: nat): seq<string> {
    if chunks == [] then []
    else
      var n := |chunks| - 1;
      AnswersToReads(f, chunks[..n], handler, max)
      + AnswersTo(FeedChunks(f, chunks[..n], max), chunks[n], handler, max)
  }

  lemma {:induction false} RepliesConcat(a: seq<Event>, b: seq<Event>, handler: string -> string)
    ensures Replies(a + b, handler) == Replies(a, handler) + Replies(b, handler)
  {
    if b == [] {
      assert a + b == a;
    } else {
      assert (a + b)[..|a + b| - 1] == a + b[..|b| - 1];
      RepliesConcat(a, b[..|b| - 1], handler);
    }
  }

  lemma AnswersConcat(f: Frame, a: string, b: string, handler: string -> string, max: nat)
    ensures AnswersTo(f, a + b, handler, max)
      == AnswersTo(f, a, handler, max) + AnswersTo(FeedAll(f, a, max), b, handler, max)
  {
    hide Replies, FeedAll;
    var g := FeedAll(Frame(f.pending, []), a, max);
    FeedConcat(Frame(f.pending, []), a, b, max);
    EventsAreAppended(f, a, max);
    EventsAreAppended(g, b, max);
    RepliesConcat(g.events, FeedAll(Frame(g.pending, []), b, max).events, handler);
  }

  /** However the stream is divided, the answers are those to the whole stream. */
  lemma {:induction false} AnswersDoNotDependOnReads(f: Frame, chunks: seq<string>, handler: string -> string, max: nat)
    ensures AnswersToReads(f, chunks, handler, max) == AnswersTo(f, Flatten(chunks), handler, max)
  {
    hide Replies, AnswersTo;
    if chunks == [] {
      NothingYet(f, handler, max);
    } else {
      var n := |chunks| - 1;
      AnswersDoNotDependOnReads(f, chunks[..n], handler, max);
      ChunksAreTheStream(f, chunks[..n], max);
      AnswersConcat(f, Flatten(chunks[..n]), chunks[n], handler, max);
    }
  }

  // ---- Lines ----

  /** The lines of a stream that are complete, and the rest behind the last newline. */
  datatype Lines = Lines(complete: seq<string>, tail: string)

  function LinesOf(s: string): Lines {
    if s == "" then Lines([], "")
    else
      var before, c := LinesOf(s[..|s| - 1]), s[|s| - 1];
      if c == '\n' then Lines(before.complete + [before.tail], "")
      else before.(tail := before.tail + [c])
  }

  function Terminated(lines: seq<string>): string {
    if lines == [] then "" else Terminated(lines[..|lines| - 1]) + (lines[|lines| - 1] + "\n")
  }

  /** No line has a newline in it. */
  lemma {:induction false} LinesHaveNoNewline(s: string)
    ensures forall i :: 0 <= i < |LinesOf(s).complete| ==> '\n' !in LinesOf(s).complete[i]
    ensures '\n' !in LinesOf(s).tail
  {
    if s != "" {
      LinesHaveNoNewline(s[..|s| - 1]);
    }
  }

  /** Each complete line with a newline behind it, and the rest, are the stream. */
  lemma {:induction false} LinesMakeUpTheStream(s: string)
    ensures Terminated(LinesOf(s).complete) + LinesOf(s).tail == s
  {
    if s != "" {
      var n := |s| - 1;
      LinesMakeUpTheStream(s[..n]);
      var before := LinesOf(s[..n]);
      if s[n] == '\n' {
        TerminatedOneMore(before.complete, before.tail);
      }
      Regroup(Terminated(before.complete), before.tail, [s[n]]);
      assert s == s[..n] + [s[n]];
    }
  }

  lemma TerminatedOneMore(lines: seq<string>, line: string)
    ensures Terminated(lines + [line]) == Terminated(lines) + (line + "\n")
  {
    assert (lines + [line])[..|lines|] == lines;
  }

  lemma Regroup(a: string, b: string, c: string)
    ensures a + (b + c) == (a + b) + c && a + c + "" == a + c
  {
  }

  /** What a buffer of `max` characters leaves of a line: every time it overflows it is emptied. */
  function Rest(line: string, max: nat): (r: string)
    ensures |r| == |line| % (max + 1)
  {
    line[|line| - |line| % (max + 1)..]
  }

  function Complaints(n: nat): seq<Event> {
    seq(n, _ => TooLong)
  }

  /** The complaints about a line, one for every `max + 1` characters. */
  function Overflows(line: string, max: nat): seq<Event> {
    Complaints(|line| / (max + 1))
  }

  function Messages(lines: seq<string>, max: nat): seq<Event> {
    if lines == [] then []
    else
      var n := |lines| - 1;
      Messages(lines[..n], max) + Overflows(lines[n], max) + [Message(Rest(lines[n], max))]
  }

  /** One more character of a line. */
  lemma LongerLine(line: string, c: char, max: nat)
    ensures |Rest(line, max)| < max ==>
      Rest(line + [c], max) == Rest(line, max) + [c] && Overflows(line + [c], max) == Overflows(line, max)
    ensures |Rest(line, max)| == max ==>
      Rest(line + [c], max) == "" && Overflows(line + [c], max) == Overflows(line, max) + [TooLong]
  {
    hide Complaints;
    NextRemainder(|line|, max + 1);
    OneComplaintMore(|line| / (max + 1));
    assert |line + [c]| == |line| + 1;
    LongerEnd(line, c, |line| - |line| % (max + 1));
  }

  lemma OneComplaintMore(q: nat)
    ensures Complaints(q + 1) == Complaints(q) + [TooLong]
  {
  }

  lemma LongerEnd(line: string, c: char, from: nat)
    requires from <= |line|
    ensures (line + [c])[from..] == line[from..] + [c]
  {
  }

  lemma NoLine(max: nat)
    ensures Rest("", max) == "" && Overflows("", max) == []
  {
    QuotientIs(0, max + 1, 0, 0);
  }

  /** For every stream: each complete line gives as many complaints as it overflows the buffer, and then
      a message of what is left of it; what is left of the unfinished line is pending. */
  lemma {:induction false} FramesAreLines(s: string, max: nat)
    ensures var lines := LinesOf(s);
      FeedAll(Frame("", []), s, max)
        == Frame(Rest(lines.tail, max), Messages(lines.complete, max) + Overflows(lines.tail, max))
  {
    hide Rest, Overflows;
    NoLine(max);
    if s != "" {
      var n := |s| - 1;
      var before := LinesOf(s[..n]);
      FramesAreLines(s[..n], max);
      if s[n] == '\n' {
        assert (before.complete + [before.tail])[..|before.complete|] == before.complete;
      } else {
        LongerLine(before.tail, s[n], max);
        RestFits(before.tail, max);
      }
    }
  }

  lemma RestFits(line: string, max: nat)
    ensures |Rest(line, max)| <= max
  {
  }

  // ---- Lines that fit ----

  function PlainMessages(lines: seq<string>): (r: seq<Event>)
    ensures |r| == |lines| && forall i :: 0 <= i < |r| ==> r[i] == Message(lines[i])
  {
    seq(|lines|, i requires 0 <= i < |lines| => Message(lines[i]))
  }

  predicate NoneTooLong(lines: seq<string>, max: nat) {
    forall i :: 0 <= i < |lines| ==> |lines[i]| <= max
  }

  lemma ShortLine(line: string, max: nat)
    ensures |line| <= max <==> Rest(line, max) == line
    ensures |line| <= max <==> Overflows(line, max) == []
  {
    var d, n := max + 1, |line|;
    if n <= max {
      QuotientIs(n, d, 0, n);
    } else {
      QuotientPositive(n, d);
    }
  }

  lemma QuotientPositive(n: nat, d: nat)
    requires 0 < d <= n
    ensures n / d > 0 && n % d < n
  {
    var q := n / d;
    assert n == q * d + n % d;
    if q <= 0 {
      Multiple(q, d);
    }
  }

  lemma {:induction false} ShortLines(lines: seq<string>, max: nat)
    requires NoneTooLong(lines, max)
    ensures Messages(lines, max) == PlainMessages(lines)
  {
    hide Rest, Overflows;
    if lines != [] {
      var n := |lines| - 1;
      ShortLines(lines[..n], max);
      ShortLine(lines[n], max);
      assert PlainMessages(lines) == PlainMessages(lines[..n]) + [Message(lines[n])];
    }
  }

  lemma {:induction false} LongLineComplains(lines: seq<string>, max: nat, i: nat)
    requires i < |lines| && |lines[i]| > max
    ensures TooLong in Messages(lines, max)
    decreases |lines|
  {
    hide Rest;
    var n := |lines| - 1;
    if i < n {
      LongLineComplains(lines[..n], max, i);
    } else {
      ShortLine(lines[n], max);
      assert Overflows(lines[n], max)[0] == TooLong;
    }
  }

  /** The messages are exactly the lines, and what is pending is the unfinished line, just when no line
      is longer than the limit. */
  lemma MessagesAreLines(s: string, max: nat)
    ensures var lines := LinesOf(s);
      FeedAll(Frame("", []), s, max) == Frame(lines.tail, PlainMessages(lines.complete)) <==>
      NoneTooLong(lines.complete + [lines.tail], max)
  {
    hide Rest, Overflows, Messages;
    var lines := LinesOf(s);
    var all := lines.complete + [lines.tail];
    FramesAreLines(s, max);
    ShortLine(lines.tail, max);
    if NoneTooLong(all, max) {
      assert NoneTooLong(lines.complete, max) by {
        forall i | 0 <= i < |lines.complete| ensures |lines.complete[i]| <= max {
          assert all[i] == lines.complete[i];
        }
      }
      assert all[|lines.complete|] == lines.tail;
      ShortLines(lines.complete, max);
    } else if |lines.tail| <= max {
      var i :| 0 <= i < |all| && |all[i]| > max;
      LongLineComplains(lines.complete, max, i);
      assert TooLong !in PlainMessages(lines.complete);
    }
  }

  // ---- The answers, line by line ----

  function Times(n: nat, text: string): (r: seq<string>)
    ensures |r| == n && forall i :: 0 <= i < n ==> r[i] == text
  {
    seq(n, _ => text)
  }

  /** For each line, as many complaints as it overflows the buffer, and then the handler's answer to what
      is left of it. */
  function LineAnswers(lines: seq<string>, handler: string -> string, max: nat): seq<string> {
    if lines == [] then []
    else
      var n := |lines| - 1;
      var line, rest := lines[n], |lines[n]| % (max + 1);
      LineAnswers(lines[..n], handler, max)
      + Times(|line| / (max + 1), "Command too long.") + NonEmpty(handler(line[|line| - rest..]))
  }

  lemma {:induction false} RepliesToComplaints(n: nat, handler: string -> string)
    ensures Replies(Complaints(n), handler) == Times(n, MSG_CMD_TOO_LONG)
  {
    if n > 0 {
      assert Complaints(n)[..n - 1] == Complaints(n - 1);
      RepliesToComplaints(n - 1, handler);
    }
  }

  lemma RepliesToLine(line: string, handler: string -> string, max: nat)
    ensures Replies(Overflows(line, max), handler) == Times(|line| / (max + 1), MSG_CMD_TOO_LONG)
    ensures Replies([Message(Rest(line, max))], handler) == NonEmpty(handler(line[|line| - |line| % (max + 1)..]))
  {
    RepliesToComplaints(|line| / (max + 1), handler);
    var e := [Message(Rest(line, max))];
    assert e[..0] == [];
    assert Replies(e, handler) == [] + NonEmpty(handler(Rest(line, max)));
  }

  lemma {:induction false} RepliesToMessages(lines: seq<string>, handler: string -> string, max: nat)
    ensures Replies(Messages(lines, max), handler) == LineAnswers(lines, handler, max)
  {
    hide Replies, Rest, Overflows, NonEmpty;
    if lines == [] {
      RepliesToComplaints(0, handler);
      assert Complaints(0) == [];
    } else {
      var n := |lines| - 1;
      RepliesToMessages(lines[..n], handler, max);
      RepliesToLine(lines[n], handler, max);
      RepliesConcat(Messages(lines[..n], max) + Overflows(lines[n], max), [Message(Rest(lines[n], max))], handler);
      RepliesConcat(Messages(lines[..n], max), Overflows(lines[n], max), handler);
    }
  }

  /** For every stream, what the client gets to read, but for prompts: the answers to the complete lines,
      and the complaints about the unfinished one. */
  lemma AnswersAreLineAnswers(s: string, handler: string -> string, max: nat)
    ensures var lines := LinesOf(s);
      AnswersTo(Frame("", []), s, handler, max)
        == LineAnswers(lines.complete, handler, max) + Times(|lines.tail| / (max + 1), "Command too long.")
  {
    hide Replies, Rest, Overflows, Messages, LineAnswers, FeedAll;
    var lines := LinesOf(s);
    FramesAreLines(s, max);
    RepliesToMessages(lines.complete, handler, max);
    RepliesToLine(lines.tail, handler, max);
    RepliesConcat(Messages(lines.complete, max), Overflows(lines.tail, max), handler);
  }

  /** The non-empty answers of the handler, in order. */
  function HandlerAnswers(lines: seq<string>, handler: string -> string): (r: seq<string>)
    ensures |r| <= |lines|
    ensures (forall i :: 0 <= i < |lines| ==> handler(lines[i]) != "") ==>
      |r| == |lines| && forall i :: 0 <= i < |r| ==> r[i] == handler(lines[i])
  {
    if lines == [] then []
    else
      var n := |lines| - 1;
      HandlerAnswers(lines[..n], handler) + if handler(lines[n]) == "" then [] else [handler(lines[n])]
  }

  lemma {:induction false} ShortLineAnswers(lines: seq<string>, handler: string -> string, max: nat)
    requires NoneTooLong(lines, max)
    ensures LineAnswers(lines, handler, max) == HandlerAnswers(lines, handler)
  {
    if lines != [] {
      var n := |lines| - 1;
      ShortLineAnswers(lines[..n], handler, max);
      QuotientIs(|lines[n]|, max + 1, 0, |lines[n]|);
      assert lines[n][0..] == lines[n];
    }
  }

  /** When all lines fit, the client reads just what the handler answers to the newline-terminated pieces
      of the stream, in their order, into whatever reads the stream is divided. */
  lemma AnswersAreTheHandlers(chunks: seq<string>, handler: string -> string, max: nat)
    requires var lines := LinesOf(Flatten(chunks));
      NoneTooLong(lines.complete, max) && |lines.tail| <= max
    ensures AnswersToReads(Frame("", []), chunks, handler, max)
      == HandlerAnswers(LinesOf(Flatten(chunks)).complete, handler)
  {
    hide LineAnswers, AnswersTo, HandlerAnswers;
    var lines := LinesOf(Flatten(chunks));
    AnswersDoNotDependOnReads(Frame("", []), chunks, handler, max);
    AnswersAreLineAnswers(Flatten(chunks), handler, max);
    ShortLineAnswers(lines.complete, handler, max);
    QuotientIs(|lines.tail|, max + 1, 0, |lines.tail|);
  }
}
