/**
 The line loop of `eval_script`. The script arrives as the sequence of
 `fgets` results (each line with its line break); the engine is an executor
 that records every text handed to `js->execute`, in order, and may throw on
 any of them, which ends the whole load.

 One top-level iteration reads a line, passes it through the comment filter,
 then runs the brace phase and the bracket phase (each gathers a block when
 the line opens one, executes it and clears the buffer), and finally
 executes what is left of the line unless comment mode is on.
 */
module Script {
  import opened CStrings
  import opened Block
  import opened Preprocess

  /** The C-string view of each line. */
  function Views(ls: seq<seq<char>>): (r: seq<seq<char>>)
    ensures |r| == |ls|
    ensures forall i :: 0 <= i < |ls| ==> r[i] == CStr(ls[i])
  {
    if ls == [] then [] else [CStr(ls[0])] + Views(ls[1..])
  }

  /** What a run of lines adds to the shared counter. */
  function Balance(ls: seq<seq<char>>, open: char, close: char): int
    decreases |ls|
  {
    if ls == [] then 0 else Net(ls[0], open, close) + Balance(ls[1..], open, close)
  }

  /** The counter, started at `depth`, is back at zero after the first `k` lines of `ls`. */
  predicate ZeroAfter(ls: seq<seq<char>>, open: char, close: char, depth: int, k: nat)
    requires k <= |ls|
  {
    depth + Balance(ls[..k], open, close) == 0
  }

  /** `n` is the first line count (at least one) after which the counter is back at zero. */
  predicate FirstZero(ls: seq<seq<char>>, open: char, close: char, depth: int, n: nat)
  {
    && 1 <= n <= |ls|
    && ZeroAfter(ls, open, close, depth, n)
    && forall k :: 1 <= k < n ==> !ZeroAfter(ls, open, close, depth, k)
  }

  /** The lines a block can draw on: the current buffer, then every line not yet read. */
  function Avail(lines: seq<seq<char>>, next: nat, buf: seq<char>): (r: seq<seq<char>>)
    requires next <= |lines|
    ensures |r| == |lines| - next + 1 && r[0] == buf
  {
    [buf] + Views(lines[next..])
  }

  /** Each line of a block after the scan. */
  function SpacedAll(ls: seq<seq<char>>): (r: seq<seq<char>>)
    ensures |r| == |ls|
    ensures forall i :: 0 <= i < |ls| ==> r[i] == Spaced(ls[i])
  {
    if ls == [] then [] else [Spaced(ls[0])] + SpacedAll(ls[1..])
  }

  /** The index of the next unread line after `n` more `fgets` calls, which stop at the end of the input. */
  function ReadOn(lines: seq<seq<char>>, next: nat, n: nat): (r: nat)
    requires next <= |lines|
    ensures next <= r <= |lines|
    ensures r == |lines| || r == next + n
  {
    if next + n <= |lines| then next + n else |lines|
  }

  /**
   The `do`-`while` of one phase, over the lines it can draw on (the current
   buffer, then every line not yet read). Each line is scanned and appended
   and the next one read, until the counter is zero; that last read is then
   discarded by the caller. When the input ends while the counter is not
   zero the source would spin on its stale buffer; here that is `None`.
   The result is the scanned lines that make up the block.
   */
  function Gather(ls: seq<seq<char>>, open: char, close: char, depth: int): (r: Option<seq<seq<char>>>)
    requires |ls| >= 1
    ensures r.Some? ==> 1 <= |r.value| <= |ls|
    decreases |ls|
  {
    var d := depth + Net(ls[0], open, close);
    if d == 0 then Some([Spaced(ls[0])])
    else if |ls| == 1 then None
    else
      match Gather(ls[1..], open, close, d)
      case None => None
      case Some(ts) => Some([Spaced(ls[0])] + ts)
  }

  /** Prepending a line shifts every prefix balance by that line's net count. */
  lemma BalanceCons(ls: seq<seq<char>>, open: char, close: char, k: nat)
    requires 1 <= k <= |ls|
    ensures Balance(ls[..k], open, close) == Net(ls[0], open, close) + Balance(ls[1..][..k - 1], open, close)
  {
    assert ls[..k][1..] == ls[1..][..k - 1];
  }

  /** The block is the scanned prefix of the available lines. */
  lemma {:induction false} GatherTexts(ls: seq<seq<char>>, open: char, close: char, depth: int)
    requires |ls| >= 1
    ensures var r := Gather(ls, open, close, depth);
      r.Some? ==> forall i :: 0 <= i < |r.value| ==> r.value[i] == Spaced(ls[i])
    decreases |ls|
  {
    var r := Gather(ls, open, close, depth);
    var d := depth + Net(ls[0], open, close);
    if d != 0 && |ls| > 1 && r.Some? {
      GatherTexts(ls[1..], open, close, d);
      var ts := Gather(ls[1..], open, close, d).value;
      assert r.value == [Spaced(ls[0])] + ts;
      forall i | 1 <= i < |r.value|
        ensures r.value[i] == Spaced(ls[i])
      {
        assert r.value[i] == ts[i - 1];
        assert ls[1..][i - 1] == ls[i];
      }
    }
  }

  /** No line break reaches the block. */
  lemma GatherNoBreaks(ls: seq<seq<char>>, open: char, close: char, depth: int)
    requires |ls| >= 1
    ensures var r := Gather(ls, open, close, depth);
      r.Some? ==> forall i :: 0 <= i < |r.value| ==> NoBreaks(r.value[i])
  {
    GatherTexts(ls, open, close, depth);
    forall i | 0 <= i < |ls| ensures NoBreaks(Spaced(ls[i])) {
      SpacedNoBreaks(ls[i]);
    }
  }

  /** Prepending a line whose count is not zero moves the first zero one line later. */
  lemma FirstZeroCons(ls: seq<seq<char>>, open: char, close: char, depth: int, n: nat)
    requires |ls| >= 1
    requires depth + Net(ls[0], open, close) != 0
    requires FirstZero(ls[1..], open, close, depth + Net(ls[0], open, close), n)
    ensures FirstZero(ls, open, close, depth, n + 1)
  {
    var d := depth + Net(ls[0], open, close);
    BalanceCons(ls, open, close, n + 1);
    BalanceCons(ls, open, close, 1);
    forall k | 1 <= k < n + 1
      ensures !ZeroAfter(ls, open, close, depth, k)
    {
      BalanceCons(ls, open, close, k);
      if k > 1 {
        assert !ZeroAfter(ls[1..], open, close, d, k - 1);
      }
    }
  }

  /** The block ends at the first line boundary where the counter is back at zero. */
  lemma {:induction false} GatherFirstZero(ls: seq<seq<char>>, open: char, close: char, depth: int)
    requires |ls| >= 1
    ensures var r := Gather(ls, open, close, depth);
      r.Some? ==> FirstZero(ls, open, close, depth, |r.value|)
    decreases |ls|
  {
    var r := Gather(ls, open, close, depth);
    var d := depth + Net(ls[0], open, close);
    if d == 0 {
      BalanceCons(ls, open, close, 1);
    } else if |ls| > 1 && r.Some? {
      GatherFirstZero(ls[1..], open, close, d);
      FirstZeroCons(ls, open, close, depth, |Gather(ls[1..], open, close, d).value|);
    }
  }

  /** `Gather` gives up exactly when the counter is never back at zero at a line boundary. */
  lemma {:induction false} GatherStuck(ls: seq<seq<char>>, open: char, close: char, depth: int)
    requires |ls| >= 1
    ensures Gather(ls, open, close, depth).None? <==>
      forall k :: 1 <= k <= |ls| ==> !ZeroAfter(ls, open, close, depth, k)
    decreases |ls|
  {
    var r := Gather(ls, open, close, depth);
    var d := depth + Net(ls[0], open, close);
    BalanceCons(ls, open, close, 1);
    if r.Some? {
      GatherFirstZero(ls, open, close, depth);
    } else if |ls| > 1 {
      GatherStuck(ls[1..], open, close, d);
      forall k | 1 <= k <= |ls|
        ensures !ZeroAfter(ls, open, close, depth, k)
      {
        BalanceCons(ls, open, close, k);
        if k > 1 {
          assert !ZeroAfter(ls[1..], open, close, d, k - 1);
        }
      }
    }
  }

  /** When the counter first returns to zero after the last line, the block is every line, scanned. */
  lemma GatherWhole(ls: seq<seq<char>>, open: char, close: char, depth: int)
    requires |ls| >= 1 && FirstZero(ls, open, close, depth, |ls|)
    ensures Gather(ls, open, close, depth) == Some(SpacedAll(ls))
  {
    GatherStuck(ls, open, close, depth);
    GatherFirstZero(ls, open, close, depth);
    var ts := Gather(ls, open, close, depth).value;
    GatherTexts(ls, open, close, depth);
    assert ts == SpacedAll(ls);
  }

  /** The unit the buffer yields for a block's lines, under either copy offset. */
  function BlockText(ts: seq<seq<char>>, v: Variant): seq<char>
  {
    if v == AsWritten then Spliced(ts) else Joined(ts)
  }

  /** A block never brings a line break into the unit. */
  lemma {:induction false} JoinedNoBreaks(ts: seq<seq<char>>)
    requires forall i :: 0 <= i < |ts| ==> NoBreaks(ts[i])
    ensures NoBreaks(Joined(ts))
    decreases |ts|
  {
    if ts != [] {
      assert forall i :: 0 <= i < |ts[1..]| ==> ts[1..][i] == ts[i + 1];
      JoinedNoBreaks(ts[1..]);
      var c := CStr(ts[0]);
      CStrPrefix(ts[0]);
      assert forall i :: 0 <= i < |c| ==> c[i] == ts[0][i];
    }
  }

  lemma {:induction false} SplicedNoBreaks(ts: seq<seq<char>>)
    requires forall i :: 0 <= i < |ts| ==> NoBreaks(ts[i])
    ensures NoBreaks(Spliced(ts))
    decreases |ts|
  {
    if ts != [] {
      assert forall i :: 0 <= i < |ts[1..]| ==> ts[1..][i] == ts[i + 1];
      JoinedNoBreaks(ts[1..]);
      SplicedNoBreaks(ts[1..]);
      var c := CStr(ts[0]);
      CStrPrefix(ts[0]);
      assert forall i :: 0 <= i < |c| ==> c[i] == ts[0][i];
    }
  }

  /** The block is between units: empty, cleared, nothing readable in it. */
  predicate Ready(b: Block)
  {
    Tidy(b) && Packed(b) && b.size == 0
  }

  /**
   What happens to a gathered block: its lines are appended to the buffer
   one by one, the buffer's contents are the unit handed to the engine, and
   the buffer is cleared.
   */
  function Flush(block: Block, ts: seq<seq<char>>, v: Variant): (r: (seq<char>, Block))
    requires Ready(block)
    requires forall i :: 0 <= i < |ts| ==> NoBreaks(ts[i])
    ensures r.0 == BlockText(ts, v) && NoBreaks(r.0)
    ensures Ready(r.1)
  {
    if v == AsWritten then
      var full := AppendAll(block, ts);
      AppendAllSpliced(block, ts);
      SplicedNoBreaks(ts);
      ClearTidy(full);
      (LiveText(full.data), Clear(full))
    else
      var full := AppendAllFixed(block, ts);
      AppendAllFixedJoined(block, ts);
      JoinedNoBreaks(ts);
      ClearTidy(full);
      (LiveText(full.data), Clear(full))
  }

  /** The outcome of one phase (brace or bracket) of an iteration. */
  datatype Phase =
    | Phase(unit: Option<seq<char>>, buf: seq<char>, next: nat, braces: int, block: Block)
    | Hung

  /**
   One phase. A line that does not open a block passes through untouched.
   One that does is gathered, executed as a single unit and the buffer
   cleared; the line left in the buffer is then discarded (`buffer[0] = '\0'`)
   and the counter is back at zero.
   */
  function RunPhase(lines: seq<seq<char>>, next: nat, buf: seq<char>, open: char, close: char,
                    braces: int, block: Block, v: Variant): (r: Phase)
    requires next <= |lines| && Ready(block)
    ensures r.Phase? ==> next <= r.next <= |lines| && Ready(r.block)
    ensures !Opens(buf, open, close) ==> r == Phase(None, buf, next, braces, block)
    ensures Opens(buf, open, close) ==> r.Hung? || r.unit.Some?
    ensures r.Hung? <==> Opens(buf, open, close) && Gather(Avail(lines, next, buf), open, close, braces).None?
    ensures r.Phase? && r.unit.Some? ==>
      var g := Gather(Avail(lines, next, buf), open, close, braces);
      && g.Some?
      && r.unit.value == BlockText(g.value, v)
      && NoBreaks(r.unit.value)
      && r.buf == []
      && r.braces == 0
      && r.next == ReadOn(lines, next, |g.value|)
  {
    if !Opens(buf, open, close) then Phase(None, buf, next, braces, block)
    else
      var avail := Avail(lines, next, buf);
      match Gather(avail, open, close, braces)
      case None => Hung
      case Some(ts) =>
        GatherNoBreaks(avail, open, close, braces);
        var u := Flush(block, ts, v);
        Phase(Some(u.0), [], ReadOn(lines, next, |ts|), 0, u.1)
  }

  /** The kind of unit handed to the executor. */
  datatype Kind = Statement | BraceBlock | BracketBlock

  /** One `js->execute` call. */
  datatype Call = Call(kind: Kind, text: seq<char>)

  /** The loop state between iterations: the comment flag, `braces`, and the block buffer. */
  datatype State = State(comment: bool, braces: int, block: Block)

  const Initial: State := State(false, 0, Fresh)

  datatype Next = Continue(next: nat, state: State) | Hang

  /** What one iteration executes, in order: a brace block, a bracket block, the line itself. */
  datatype Plan = Plan(brace: Option<seq<char>>, bracket: Option<seq<char>>, statement: Option<seq<char>>, after: Next)

  function Opt(k: Kind, u: Option<seq<char>>): seq<Call>
  {
    if u.Some? then [Call(k, u.value)] else []
  }

  function Calls(p: Plan): seq<Call>
  {
    Opt(BraceBlock, p.brace) + Opt(BracketBlock, p.bracket) + Opt(Statement, p.statement)
  }

  /**
   One iteration of the top-level `while`, for the line at index `i`.
   Only this line goes through the comment filter; the block phases read on
   without it. A block is gathered and executed whether or not comment mode
   is on; the line itself is executed exactly when comment mode is off
   after the filter, and after a block it is the empty string.
   */
  function Iteration(lines: seq<seq<char>>, i: nat, st: State, v: Variant): (r: Plan)
    requires i < |lines| && st.braces == 0 && Ready(st.block)
    ensures r.after.Continue? ==>
      && i < r.after.next <= |lines|
      && r.after.state.braces == 0
      && r.after.state.comment == FilterComment(CStr(lines[i]), st.comment).comment
      && Ready(r.after.state.block)
  {
    var f := FilterComment(CStr(lines[i]), st.comment);
    var p1 := RunPhase(lines, i + 1, f.text, '{', '}', st.braces, st.block, v);
    if p1.Hung? then Plan(None, None, None, Hang)
    else
      var p2 := RunPhase(lines, p1.next, p1.buf, '[', ']', p1.braces, p1.block, v);
      if p2.Hung? then Plan(p1.unit, None, None, Hang)
      else
        Plan(p1.unit, p2.unit, if f.comment then None else Some(p2.buf),
             Continue(p2.next, State(f.comment, p2.braces, p2.block)))
  }

  /**
   The line itself is executed exactly when the iteration runs to its end
   with comment mode off after the filter. It is the filtered line when no
   block was opened, and the empty string once a block has consumed it;
   an ordinary line leaves the state as the filter left it and moves on by
   one line.
   */
  lemma IterationStatement(lines: seq<seq<char>>, i: nat, st: State, v: Variant)
    requires i < |lines| && st.braces == 0 && Ready(st.block)
    ensures var r := Iteration(lines, i, st, v);
      var f := FilterComment(CStr(lines[i]), st.comment);
      && (r.statement.Some? <==> r.after.Continue? && !f.comment)
      && (r.brace.Some? || r.bracket.Some? ==> r.statement.Some? ==> r.statement.value == [])
      && (!Opens(f.text, '{', '}') && !Opens(f.text, '[', ']') ==>
            && r.brace.None? && r.bracket.None?
            && r.after == Continue(i + 1, State(f.comment, 0, st.block))
            && (r.statement.Some? ==> r.statement.value == f.text))
  {
  }

  /**
   A line that opens a brace block (a `{` and no `}` after the filter) has
   the block gathered from the lines that follow and executed as one unit,
   unless the input ends first; the bracket phase then has nothing to do.
   */
  lemma IterationBrace(lines: seq<seq<char>>, i: nat, st: State, v: Variant)
    requires i < |lines| && st.braces == 0 && Ready(st.block)
    ensures var r := Iteration(lines, i, st, v);
      var f := FilterComment(CStr(lines[i]), st.comment);
      var g := Gather(Avail(lines, i + 1, f.text), '{', '}', 0);
      && (r.brace.Some? <==> Opens(f.text, '{', '}') && g.Some?)
      && (r.brace.Some? ==> r.brace.value == BlockText(g.value, v) && r.bracket.None?)
      && (Opens(f.text, '{', '}') && g.None? ==> r == Plan(None, None, None, Hang))
  {
    var f := FilterComment(CStr(lines[i]), st.comment);
    if Opens(f.text, '{', '}') {
      EmptyOpensNothing('[', ']');
    } else {
      assert RunPhase(lines, i + 1, f.text, '{', '}', st.braces, st.block, v) == Phase(None, f.text, i + 1, 0, st.block);
    }
  }

  /**
   After a brace block the loop resumes at the line after the last one
   read, the one read after the block's closing line being dropped.
   */
  lemma IterationBraceResumes(lines: seq<seq<char>>, i: nat, st: State, v: Variant)
    requires i < |lines| && st.braces == 0 && Ready(st.block)
    ensures var r := Iteration(lines, i, st, v);
      var f := FilterComment(CStr(lines[i]), st.comment);
      var g := Gather(Avail(lines, i + 1, f.text), '{', '}', 0);
      r.brace.Some? ==> r.after.Continue? && r.after.next == ReadOn(lines, i + 1, |g.value|)
  {
    var f := FilterComment(CStr(lines[i]), st.comment);
    if Opens(f.text, '{', '}') {
      EmptyOpensNothing('[', ']');
    }
  }

  /**
   A line that opens no brace block but a bracket block (a `[` and no `]`)
   has that block gathered and executed the same way.
   */
  lemma IterationBracket(lines: seq<seq<char>>, i: nat, st: State, v: Variant)
    requires i < |lines| && st.braces == 0 && Ready(st.block)
    ensures var r := Iteration(lines, i, st, v);
      var f := FilterComment(CStr(lines[i]), st.comment);
      var g := Gather(Avail(lines, i + 1, f.text), '[', ']', 0);
      && (r.bracket.Some? <==> !Opens(f.text, '{', '}') && Opens(f.text, '[', ']') && g.Some?)
      && (r.bracket.Some? ==> r.bracket.value == BlockText(g.value, v))
      && (r.bracket.Some? ==> r.after.Continue? && r.after.next == ReadOn(lines, i + 1, |g.value|))
      && (!Opens(f.text, '{', '}') && Opens(f.text, '[', ']') && g.None? ==> r.after.Hang?)
  {
    var f := FilterComment(CStr(lines[i]), st.comment);
    if Opens(f.text, '{', '}') {
      EmptyOpensNothing('[', ']');
    } else {
      assert RunPhase(lines, i + 1, f.text, '{', '}', st.braces, st.block, v) == Phase(None, f.text, i + 1, 0, st.block);
    }
  }

  /**
   The text a line keeps before a `CommentStart` that opens a comment is
   never executed as a statement, since comment mode is already on when the
   line itself would be executed; only a block that text opens is run.
   */
  lemma CutTextNeverRuns(lines: seq<seq<char>>, i: nat, st: State, v: Variant)
    requires i < |lines| && st.braces == 0 && Ready(st.block)
    requires !st.comment && Contains(CStr(lines[i]), CommentStart)
    ensures Iteration(lines, i, st, v).statement.None?
  {
    IterationStatement(lines, i, st, v);
  }

  /** The empty line left behind by a block opens nothing. */
  lemma EmptyOpensNothing(open: char, close: char)
    ensures !Opens([], open, close)
  {
  }

  /**
   A unit as the engine receives it: a statement never holds a
   `CommentStart`, and a block never holds a line break.
   */
  predicate WellFormed(c: Call)
  {
    if c.kind == Statement then !Contains(c.text, CommentStart) else NoBreaks(c.text)
  }

  lemma EmptyHasNoMarker()
    ensures !Contains([], CommentStart)
  {
  }

  predicate AllWellFormed(cs: seq<Call>)
  {
    forall k :: 0 <= k < |cs| ==> WellFormed(cs[k])
  }

  lemma AppendWellFormed(a: seq<Call>, b: seq<Call>)
    requires AllWellFormed(a) && AllWellFormed(b)
    ensures AllWellFormed(a + b)
  {
    forall k | 0 <= k < |a + b| ensures WellFormed((a + b)[k]) {
      if k >= |a| {
        assert (a + b)[k] == b[k - |a|];
      }
    }
  }

  /** The units of a plan, field by field, are well formed. */
  predicate PlanWellFormed(p: Plan)
  {
    && (p.brace.Some? ==> NoBreaks(p.brace.value))
    && (p.bracket.Some? ==> NoBreaks(p.bracket.value))
    && (p.statement.Some? ==> !Contains(p.statement.value, CommentStart))
  }

  lemma CallsWellFormed(p: Plan)
    requires PlanWellFormed(p)
    ensures AllWellFormed(Calls(p))
  {
  }

  /** Every unit one iteration hands to the engine is well formed. */
  lemma IterationWellFormed(lines: seq<seq<char>>, i: nat, st: State, v: Variant)
    requires i < |lines| && st.braces == 0 && Ready(st.block)
    ensures PlanWellFormed(Iteration(lines, i, st, v))
  {
    FilterOutside(CStr(lines[i]), st.comment);
    EmptyHasNoMarker();
  }

  /**
   The engine: given the calls executed so far and the next text, whether
   it throws. Its state is whatever those calls left behind.
   */
  type Executor = (seq<Call>, seq<char>) -> bool

  /** Calls `from .. to` of `log` were executed without the engine throwing. */
  predicate Passed(log: seq<Call>, fails: Executor, from: nat, to: nat)
    requires to <= |log|
  {
    forall k :: from <= k < to ==> !fails(log[..k], log[k].text)
  }

  datatype Dispatched = Done(log: seq<Call>) | Threw(log: seq<Call>)

  /**
   Issues the calls in order after those already in `log`. Either all of
   them are issued, or a non-empty prefix is and the engine threw on the
   last one issued.
   */
  function Dispatch(calls: seq<Call>, fails: Executor, log: seq<Call>): (r: Dispatched)
    ensures r.Done? ==> r.log == log + calls
    ensures r.Threw? ==> |log| < |r.log| <= |log| + |calls| && r.log == log + calls[..|r.log| - |log|]
    decreases |calls|
  {
    if calls == [] then Done(log)
    else if fails(log, calls[0].text) then
      assert calls[..1] == [calls[0]];
      Threw(log + [calls[0]])
    else
      var r := Dispatch(calls[1..], fails, log + [calls[0]]);
      assert calls == [calls[0]] + calls[1..];
      assert r.Threw? ==> calls[..|r.log| - |log|] == [calls[0]] + calls[1..][..|r.log| - |log| - 1];
      r
  }

  /** A log extended by a call the engine accepts still passed throughout. */
  lemma PassedSnoc(log: seq<Call>, c: Call, fails: Executor, from: nat)
    requires from <= |log| && Passed(log, fails, from, |log|)
    requires !fails(log, c.text)
    ensures Passed(log + [c], fails, from, |log| + 1)
  {
    var l := log + [c];
    forall k | from <= k < |log| + 1
      ensures !fails(l[..k], l[k].text)
    {
      assert l[..k] == log[..k];
      if k == |log| {
        assert log[..k] == log;
      }
    }
  }

  /**
   The engine sees the calls one at a time: every call issued before the
   last was accepted, and `Dispatch` stops at the first one it throws on.
   */
  lemma {:induction false} DispatchPassed(calls: seq<Call>, fails: Executor, log: seq<Call>)
    ensures var r := Dispatch(calls, fails, log);
      && (r.Done? ==> Passed(r.log, fails, |log|, |r.log|))
      && (r.Threw? ==>
            && Passed(r.log, fails, |log|, |r.log| - 1)
            && fails(r.log[..|r.log| - 1], r.log[|r.log| - 1].text))
    decreases |calls|
  {
    if calls != [] {
      var l := log + [calls[0]];
      assert l[..|log|] == log;
      if !fails(log, calls[0].text) {
        DispatchPassed(calls[1..], fails, l);
        var r := Dispatch(calls[1..], fails, l);
        PassedSnoc(log, calls[0], fails, |log|);
        forall k | |log| <= k < |l|
          ensures !fails(r.log[..k], r.log[k].text)
        {
          assert r.log[..k] == l[..k];
          assert r.log[k] == l[k];
        }
      }
    }
  }

  /**
   Every call the script yields, in order, if the engine never throws;
   `complete` is false when the input ends inside a block (the point where
   the source would spin on its stale buffer). The engine's answers only
   decide where the run stops, never what the calls are.
   */
  datatype Units = Units(calls: seq<Call>, complete: bool)

  /** The top-level `while`, from line `i` on, as the calls it yields. */
  function Schedule(lines: seq<seq<char>>, i: nat, st: State, v: Variant): (r: Units)
    requires i <= |lines| && st.braces == 0 && Ready(st.block)
    ensures |r.calls| <= 3 * (|lines| - i)
    decreases |lines| - i
  {
    if i == |lines| then Units([], true)
    else
      var p := Iteration(lines, i, st, v);
      if p.after.Hang? then Units(Calls(p), false)
      else
        var rest := Schedule(lines, p.after.next, p.after.state, v);
        Units(Calls(p) + rest.calls, rest.complete)
  }

  /** Every unit a script yields is well formed. */
  lemma {:induction false} ScheduleWellFormed(lines: seq<seq<char>>, i: nat, st: State, v: Variant)
    requires i <= |lines| && st.braces == 0 && Ready(st.block)
    ensures AllWellFormed(Schedule(lines, i, st, v).calls)
    decreases |lines| - i
  {
    if i < |lines| {
      var p := Iteration(lines, i, st, v);
      IterationWellFormed(lines, i, st, v);
      CallsWellFormed(p);
      if p.after.Continue? {
        ScheduleWellFormed(lines, p.after.next, p.after.state, v);
        AppendWellFormed(Calls(p), Schedule(lines, p.after.next, p.after.state, v).calls);
      }
    }
  }

  /** A line that opens nothing: no `{`, no `[`, no `CommentStart`. */
  predicate PlainLine(line: seq<char>)
  {
    var c := CStr(line);
    '{' !in c && '[' !in c && !Contains(c, CommentStart)
  }

  /** Each line as a statement of its own. */
  function Statements(ls: seq<seq<char>>): (r: seq<Call>)
    ensures |r| == |ls|
  {
    if ls == [] then [] else [Call(Statement, CStr(ls[0]))] + Statements(ls[1..])
  }

  /**
   A script of plain lines is executed line by line, each line's C-string
   being one statement, whatever the copy offset.
   */
  lemma {:induction false} PlainSchedule(lines: seq<seq<char>>, i: nat, b: Block, v: Variant)
    requires i <= |lines| && Ready(b)
    requires forall k :: i <= k < |lines| ==> PlainLine(lines[k])
    ensures Schedule(lines, i, State(false, 0, b), v) == Units(Statements(lines[i..]), true)
    decreases |lines| - i
  {
    if i < |lines| {
      PlainIteration(lines, i, b, v);
      StatementOnly(Iteration(lines, i, State(false, 0, b), v));
      ScheduleStep(lines, i, State(false, 0, b), v);
      PlainSchedule(lines, i + 1, b, v);
      StatementsFrom(lines, i);
    }
  }

  /** Unfolding `Schedule` once at an iteration that runs to its end. */
  lemma ScheduleStep(lines: seq<seq<char>>, i: nat, st: State, v: Variant)
    requires i < |lines| && st.braces == 0 && Ready(st.block)
    requires Iteration(lines, i, st, v).after.Continue?
    ensures var p := Iteration(lines, i, st, v);
      var rest := Schedule(lines, p.after.next, p.after.state, v);
      Schedule(lines, i, st, v) == Units(Calls(p) + rest.calls, rest.complete)
  {
  }

  /** A plan that executes only the line itself issues exactly one call. */
  lemma StatementOnly(p: Plan)
    requires p.brace.None? && p.bracket.None? && p.statement.Some?
    ensures Calls(p) == [Call(Statement, p.statement.value)]
  {
  }

  /** Unfolding `Statements` once on a suffix. */
  lemma StatementsFrom(lines: seq<seq<char>>, i: nat)
    requires i < |lines|
    ensures Statements(lines[i..]) == [Call(Statement, CStr(lines[i]))] + Statements(lines[i + 1..])
  {
    assert lines[i..][1..] == lines[i + 1..];
  }

  /** One plain line outside a comment is one statement, and nothing else changes. */
  lemma PlainIteration(lines: seq<seq<char>>, i: nat, b: Block, v: Variant)
    requires i < |lines| && Ready(b) && PlainLine(lines[i])
    ensures Iteration(lines, i, State(false, 0, b), v) ==
      Plan(None, None, Some(CStr(lines[i])), Continue(i + 1, State(false, 0, b)))
  {
    var c := CStr(lines[i]);
    OpensIff(c, '{', '}');
    OpensIff(c, '[', ']');
    IterationStatement(lines, i, State(false, 0, b), v);
  }

  /** Lines without NUL are their own C-string views. */
  lemma ViewsOfNulFree(ls: seq<seq<char>>)
    requires forall k :: 0 <= k < |ls| ==> '\0' !in ls[k]
    ensures Views(ls) == ls
  {
    forall k | 0 <= k < |ls| ensures Views(ls)[k] == ls[k] {
      CStrOfNulFree(ls[k]);
    }
  }

  /**
   A script that is one brace block, opened on its first line outside a
   comment and closed exactly on its last, is executed as that block,
   every line scanned, followed by the empty statement the block leaves
   behind.
   */
  lemma SingleBlockScript(lines: seq<seq<char>>, v: Variant)
    requires |lines| >= 1
    requires forall k :: 0 <= k < |lines| ==> '\0' !in lines[k]
    requires !Contains(lines[0], CommentStart) && Opens(lines[0], '{', '}')
    requires FirstZero(lines, '{', '}', 0, |lines|)
    ensures Schedule(lines, 0, Initial, v) ==
      Units([Call(BraceBlock, BlockText(SpacedAll(lines), v)), Call(Statement, [])], true)
  {
    FreshIsTidy();
    SingleBlockIteration(lines, v);
    var p := Iteration(lines, 0, Initial, v);
    BlockThenStatement(p);
  }

  lemma BlockThenStatement(p: Plan)
    requires p.brace.Some? && p.bracket.None? && p.statement.Some?
    ensures Calls(p) + [] == [Call(BraceBlock, p.brace.value), Call(Statement, p.statement.value)]
  {
  }

  /** The one iteration of `SingleBlockScript`. */
  lemma SingleBlockIteration(lines: seq<seq<char>>, v: Variant)
    requires |lines| >= 1
    requires forall k :: 0 <= k < |lines| ==> '\0' !in lines[k]
    requires !Contains(lines[0], CommentStart) && Opens(lines[0], '{', '}')
    requires FirstZero(lines, '{', '}', 0, |lines|)
    ensures var r := Iteration(lines, 0, Initial, v);
      && r.brace == Some(BlockText(SpacedAll(lines), v))
      && r.bracket.None?
      && r.statement == Some([])
      && r.after.Continue? && r.after.next == |lines|
  {
    FreshIsTidy();
    CStrOfNulFree(lines[0]);
    ViewsOfNulFree(lines[1..]);
    assert Avail(lines, 1, lines[0]) == lines;
    GatherWhole(lines, '{', '}', 0);
    IterationBrace(lines, 0, Initial, v);
    IterationBraceResumes(lines, 0, Initial, v);
    IterationStatement(lines, 0, Initial, v);
  }

  /** How processing of the script ended, with every call issued, in order. */
  datatype Outcome =
    | Finished(log: seq<Call>)      // every line was read
    | Failed(log: seq<Call>)        // the engine threw on the last call
    | Unterminated(log: seq<Call>)  // the input ended inside a block

  /**
   The engine accepted every call in the outcome's log but, when the run
   failed, the last one, which it threw on.
   */
  predicate Disciplined(r: Outcome, fails: Executor)
  {
    if r.Failed? then
      && |r.log| > 0
      && Passed(r.log, fails, 0, |r.log| - 1)
      && fails(r.log[..|r.log| - 1], r.log[|r.log| - 1].text)
    else Passed(r.log, fails, 0, |r.log|)
  }

  /**
   Issues the calls a script yields, in order, until the engine throws
   (the exception is caught by the single handler and the load ends), the
   input ends, or the input ends inside a block.
   */
  function Execute(u: Units, fails: Executor): (r: Outcome)
    ensures r.log <= u.calls
    ensures Disciplined(r, fails)
    ensures r.Failed? || r.log == u.calls
    ensures r.Finished? ==> u.complete
    ensures r.Unterminated? ==> !u.complete
  {
    DispatchPassed(u.calls, fails, []);
    match Dispatch(u.calls, fails, [])
    case Threw(l) => Failed(l)
    case Done(l) => if u.complete then Finished(l) else Unterminated(l)
  }

  /** A run fails exactly when the engine throws on one of the calls the script yields. */
  lemma ExecuteFails(u: Units, fails: Executor)
    ensures Execute(u, fails).Failed? <==> !Passed(u.calls, fails, 0, |u.calls|)
  {
    var r := Execute(u, fails);
    if r.Failed? {
      var n := |r.log| - 1;
      assert r.log[..n] == u.calls[..n];
      assert !(!fails(u.calls[..n], u.calls[n].text));
    }
  }

  /**
   `eval_script` over the lines of a script: the calls the script yields are
   issued in order until the engine throws on one of them, and the run ends
   normally exactly when the engine accepts them all and no block was left
   open at the end of the input.
   */
  function EvalScript(lines: seq<seq<char>>, fails: Executor, v: Variant): (r: Outcome)
    ensures var u := Schedule(lines, 0, Initial, v);
      && r.log <= u.calls
      && Disciplined(r, fails)
      && (r.Failed? <==> !Passed(u.calls, fails, 0, |u.calls|))
      && (r.Finished? <==> u.complete && Passed(u.calls, fails, 0, |u.calls|))
  {
    FreshIsTidy();
    ExecuteFails(Schedule(lines, 0, Initial, v), fails);
    Execute(Schedule(lines, 0, Initial, v), fails)
  }
}
