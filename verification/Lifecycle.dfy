/** The life of Lua states over requests (src/lws_state.c, src/lws_lib.c, src/lws_request.c). */
module Lifecycle {
  import opened Wrappers

  datatype Chunk = Init | Pre | Main | Post

  /** What a script asks of the runtime; an error raised by a request may be caught by the script itself. */
  datatype Action = SetComplete(caught: bool) | SetClose

  datatype LuaValue = Nil | Integer(value: int) | Other

  datatype Ending = Raises | Returns(value: LuaValue)

  /** A chunk as the runtime sees it: it fails to load, or makes its requests and ends. */
  datatype Script = LoadFails | Runs(actions: seq<Action>, end: Ending)

  datatype Config = Config(hasInit: bool, hasPre: bool, hasPost: bool, reqMax: int)

  /** A request, with the outcome of everything outside the lifecycle: preparation, state creation, finalization. */
  datatype Request = Request(prepared: int, createFails: bool, finalized: int,
                             init: Script, pre: Script, main: Script, post: Script)

  function ScriptOf(r: Request, chunk: Chunk): Script {
    match chunk
    case Init => r.init
    case Pre => r.pre
    case Main => r.main
    case Post => r.post
  }

  /** The assignment of a lua_Integer to an int of 32 bits. */
  function AsInt(value: int): int {
    (value + 0x8000_0000) % 0x1_0000_0000 - 0x8000_0000
  }

  function Status(value: LuaValue): int {
    match value
    case Nil => 0
    case Integer(v) => AsInt(v)
    case Other => -1
  }

  /** A result that is a failure: neither nil nor an integer, or an integer that is negative as an int. */
  ghost predicate Negative(value: LuaValue) {
    value.Other? || (value.Integer? && value.value % 0x1_0000_0000 >= 0x8000_0000)
  }

  ghost predicate Positive(value: LuaValue) {
    value.Integer? && 0 < value.value % 0x1_0000_0000 < 0x8000_0000
  }

  /** What a script returns, other than a failure, is worth rc. */
  ghost predicate Gives(script: Script, rc: int) {
    && script.Runs? && script.end.Returns? && !Negative(script.end.value)
    && rc == if script.end.value.Integer? then script.end.value.value % 0x1_0000_0000 else 0
  }

  lemma StatusIs(value: LuaValue)
    ensures Status(value) < 0 <==> Negative(value)
    ensures Status(value) > 0 <==> Positive(value)
    ensures Status(value) >= 0 ==> Status(value) == if value.Integer? then value.value % 0x1_0000_0000 else 0
  {
    if value.Integer? {
      var v := value.value;
      assert v == v / 0x1_0000_0000 * 0x1_0000_0000 + v % 0x1_0000_0000;
    }
  }

  /** Only the pre chunk may complete the request; elsewhere it is an error to ask for it. */
  predicate Stops(chunk: Chunk, action: Action) {
    chunk != Pre && action == SetComplete(false)
  }

  ghost predicate Reached(script: Script, chunk: Chunk, i: nat) {
    script.Runs? && i <= |script.actions| && forall j | 0 <= j < i :: !Stops(chunk, script.actions[j])
  }

  /** The call ends in a Lua error. */
  ghost predicate Fails(script: Script, chunk: Chunk) {
    script.Runs? ==>
      !Reached(script, chunk, |script.actions|) || script.end.Raises? || Negative(script.end.value)
  }

  ghost predicate AsksClose(script: Script, chunk: Chunk) {
    script.Runs? && exists i | 0 <= i < |script.actions| :: Reached(script, chunk, i) && script.actions[i] == SetClose
  }

  ghost predicate AsksComplete(script: Script) {
    script.Runs? && exists i | 0 <= i < |script.actions| :: script.actions[i].SetComplete?
  }

  /** What a pre chunk that does not fail can do to complete the request. */
  ghost predicate Completes(pre: Script) {
    pre.Runs? && (AsksComplete(pre) || (pre.end.Returns? && Positive(pre.end.value)))
  }

  function Rank(chunk: Chunk): nat {
    match chunk
    case Init => 0
    case Pre => 1
    case Main => 2
    case Post => 3
  }

  ghost predicate FailsIn(r: Request, entered: seq<Chunk>, chunk: Chunk) {
    chunk in entered && Fails(ScriptOf(r, chunk), chunk)
  }

  /** The calls of one request: which chunks are entered, in which order, and whether one fails. */
  ghost predicate Sequenced(config: Config, first: bool, r: Request, entered: seq<Chunk>, failed: bool) {
    && (forall i, j | 0 <= i < j < |entered| :: Rank(entered[i]) < Rank(entered[j]))
    && (Init in entered <==> first && config.hasInit)
    && (Pre in entered <==> config.hasPre && !FailsIn(r, entered, Init))
    && (Main in entered <==>
          !FailsIn(r, entered, Init) && !FailsIn(r, entered, Pre) && !(Pre in entered && Completes(r.pre)))
    && (Post in entered <==>
          config.hasPost && !FailsIn(r, entered, Init) && !FailsIn(r, entered, Pre) && !FailsIn(r, entered, Main))
    && (failed <==> exists c :: FailsIn(r, entered, c))
  }

  lemma NoneIn(entered: seq<Chunk>)
    ensures (forall c :: c !in entered) <==> entered == []
  {
    if entered != [] {
      assert entered[0] in entered;
    }
  }

  lemma SortedUnique(a: seq<Chunk>, b: seq<Chunk>)
    requires forall i, j | 0 <= i < j < |a| :: Rank(a[i]) < Rank(a[j])
    requires forall i, j | 0 <= i < j < |b| :: Rank(b[i]) < Rank(b[j])
    requires forall c :: c in a <==> c in b
    ensures a == b
  {
    if a == [] {
      NoneIn(b);
    } else {
      assert a[0] in b && b != [] && b[0] in a;
      assert a[0] == b[0];
      forall c ensures c in a[1..] <==> c in b[1..] {
        assert c in a[1..] <==> c in a && c != a[0];
        assert c in b[1..] <==> c in b && c != b[0];
      }
      SortedUnique(a[1..], b[1..]);
      assert a == [a[0]] + a[1..] && b == [b[0]] + b[1..];
    }
  }

  /** The calls one by one. */
  ghost function Calls(config: Config, first: bool, r: Request): (seq<Chunk>, bool) {
    var init := first && config.hasInit;
    var e0 := if init then [] + [Init] else [];
    if init && Fails(r.init, Init) then (e0, true) else
    var e1 := if config.hasPre then e0 + [Pre] else e0;
    if config.hasPre && Fails(r.pre, Pre) then (e1, true) else
    var main := !(config.hasPre && Completes(r.pre));
    var e2 := if main then e1 + [Main] else e1;
    if main && Fails(r.main, Main) then (e2, true) else
    if config.hasPost then (e2 + [Post], Fails(r.post, Post)) else (e2, false)
  }

  lemma CallsSequenced(config: Config, first: bool, r: Request)
    ensures Sequenced(config, first, r, Calls(config, first, r).0, Calls(config, first, r).1)
  {
    hide Fails, Completes;
    CallsAscend(config, first, r);
    hide Rank;
    var (entered, failed) := Calls(config, first, r);
    assert failed <==>
      FailsIn(r, entered, Init) || FailsIn(r, entered, Pre) || FailsIn(r, entered, Main) || FailsIn(r, entered, Post);
  }

  lemma CallsAscend(config: Config, first: bool, r: Request)
    ensures var entered := Calls(config, first, r).0;
      forall i, j | 0 <= i < j < |entered| :: Rank(entered[i]) < Rank(entered[j])
  {
    hide Fails, Completes;
  }

  /** The rules leave no choice. */
  lemma SequencedUnique(config: Config, first: bool, r: Request, e0: seq<Chunk>, f0: bool, e1: seq<Chunk>, f1: bool)
    requires Sequenced(config, first, r, e0, f0) && Sequenced(config, first, r, e1, f1)
    ensures e0 == e1 && f0 == f1
  {
    forall c: Chunk ensures c in e0 <==> c in e1 {
      match c {
        case Init =>
        case Pre =>
        case Main =>
        case Post =>
      }
    }
    SortedUnique(e0, e1);
  }

  /** Nothing, so in particular no post chunk, follows a Lua error. */
  lemma NothingAfterError(config: Config, first: bool, r: Request, entered: seq<Chunk>, failed: bool, i: nat)
    requires Sequenced(config, first, r, entered, failed)
    requires i < |entered| && Fails(ScriptOf(r, entered[i]), entered[i])
    ensures failed && i == |entered| - 1
  {
    var last := entered[|entered| - 1];
    assert last in entered && FailsIn(r, entered, entered[i]);
    assert last == entered[i];
  }

  /** While nothing fails before it, main is skipped exactly when pre completes the request, and post comes last. */
  ghost predicate MainSkipped(config: Config, r: Request, entered: seq<Chunk>) {
    !FailsIn(r, entered, Init) && !FailsIn(r, entered, Pre) ==>
      && (Main !in entered <==> config.hasPre && Completes(r.pre))
      && (config.hasPost && Main !in entered ==> entered != [] && entered[|entered| - 1] == Post)
  }

  /** The script does not ask for completion. */
  ghost predicate Plain(script: Script) {
    script.Runs? && forall i | 0 <= i < |script.actions| :: script.actions[i] == SetClose
  }

  /** What the result of such a chunk means: nil, an integer, which counts as the int n of 32 bits, anything else. */
  lemma ChunkResult(script: Script, chunk: Chunk, rc: int, n: int, k: int)
    requires Plain(script)
    ensures script.end == Returns(Nil) ==>
              !Fails(script, chunk) && !Completes(script) && (Gives(script, rc) <==> rc == 0)
    ensures script.end == Returns(Integer(n + k * 0x1_0000_0000)) && -0x8000_0000 <= n < 0x8000_0000 ==>
              (Fails(script, chunk) <==> n < 0) && (Completes(script) <==> n > 0) &&
              (Gives(script, rc) <==> rc == n >= 0)
    ensures script.end == Raises || script.end == Returns(Other) ==> Fails(script, chunk)
  {
    assert Reached(script, chunk, |script.actions|);
  }

  /** A chunk that can stop itself by asking for completion where it may not, fails. */
  lemma StoppedFails(script: Script, chunk: Chunk, i: nat)
    requires script.Runs? && i < |script.actions| && script.actions[i] == SetComplete(false)
    ensures chunk != Pre ==> Fails(script, chunk)
    ensures !Fails(script, Pre) ==> Completes(script)
  {
    assert Stops(chunk, script.actions[i]) <==> chunk != Pre;
  }

  ghost predicate ReturnsNil(script: Script) {
    Plain(script) && script.end == Returns(Nil)
  }

  ghost predicate AllReturnNil(r: Request) {
    ReturnsNil(r.init) && ReturnsNil(r.pre) && ReturnsNil(r.main) && ReturnsNil(r.post)
  }

  /** The chunks that are configured, and main. */
  function Configured(config: Config, first: bool): seq<Chunk> {
    (if first && config.hasInit then [Init] else []) + (if config.hasPre then [Pre] else [])
    + [Main] + (if config.hasPost then [Post] else [])
  }

  /** If all chunks return nil and ask for nothing, those that are configured are entered, and main. */
  lemma AllSucceed(config: Config, first: bool, r: Request, entered: seq<Chunk>, failed: bool)
    requires Sequenced(config, first, r, entered, failed) && AllReturnNil(r)
    ensures !failed && Main in entered && forall rc :: Gives(r.main, rc) <==> rc == 0
    ensures entered == Configured(config, first)
  {
    hide Fails, Completes, Plain, Sequenced;
    ChunkResult(r.init, Init, 0, 0, 0);
    ChunkResult(r.pre, Pre, 0, 0, 0);
    ChunkResult(r.main, Main, 0, 0, 0);
    ChunkResult(r.post, Post, 0, 0, 0);
    CallsSequenced(config, first, r);
    var (e, f) := Calls(config, first, r);
    SequencedUnique(config, first, r, entered, failed, e, f);
  }

  lemma MainSkippedWhenCompleted(config: Config, first: bool, r: Request, entered: seq<Chunk>, failed: bool)
    requires Sequenced(config, first, r, entered, failed)
    requires !FailsIn(r, entered, Init) && !FailsIn(r, entered, Pre)
    ensures Main !in entered <==> Pre in entered && Completes(r.pre)
    ensures config.hasPost && Main !in entered ==> entered[|entered| - 1] == Post
    ensures MainSkipped(config, r, entered)
  {
    if config.hasPost && Main !in entered {
      assert Post in entered;
    }
  }

  lemma CallsSkipMain(config: Config, first: bool, r: Request)
    ensures MainSkipped(config, r, Calls(config, first, r).0)
  {
    hide Fails, Completes, Sequenced, Calls, Rank;
    CallsSequenced(config, first, r);
    var (entered, failed) := Calls(config, first, r);
    if !FailsIn(r, entered, Init) && !FailsIn(r, entered, Pre) {
      MainSkippedWhenCompleted(config, first, r, entered, failed);
    }
  }

  /** The per-request context of lws_run. */
  class LuaRequest {
    var chunk: Chunk
    var complete: bool
    ghost var entered: seq<Chunk>

    constructor ()
      ensures !complete && entered == []
    {
      chunk, complete, entered := Init, false, [];
    }
  }

  /** One request that got as far as a Lua state, numbered by the states created so far. */
  datatype Record = Record(state: nat, request: Request, entered: seq<Chunk>, failed: bool)

  predicate First(runs: seq<Record>, i: nat)
    requires i < |runs|
  {
    i == 0 || runs[i - 1].state != runs[i].state
  }

  /** How many requests the state has served with this one. */
  function Age(runs: seq<Record>, i: nat): nat
    requires i < |runs|
  {
    if First(runs, i) then 1 else Age(runs, i - 1) + 1
  }

  ghost predicate Closing(run: Record) {
    run.failed || exists c | c in run.entered :: AsksClose(ScriptOf(run.request, c), c)
  }

  ghost predicate Closes(config: Config, runs: seq<Record>, i: nat)
    requires i < |runs|
  {
    Closing(runs[i]) || 0 < config.reqMax <= Age(runs, i)
  }

  ghost predicate Recorded(config: Config, runs: seq<Record>, i: nat)
    requires i < |runs|
  {
    && Sequenced(config, First(runs, i), runs[i].request, runs[i].entered, runs[i].failed)
    && runs[i].state ==
       (if i == 0 then 0 else runs[i - 1].state + (if Closes(config, runs, i - 1) then 1 else 0))
  }

  ghost predicate History(config: Config, runs: seq<Record>) {
    forall i: nat | i < |runs| :: Recorded(config, runs, i)
  }

  lemma {:induction false} AgeKept(runs: seq<Record>, run: Record, i: nat)
    requires i < |runs|
    ensures Age(runs + [run], i) == Age(runs, i)
    ensures First(runs + [run], i) == First(runs, i)
  {
    if !First(runs, i) {
      AgeKept(runs, run, i - 1);
    }
  }

  lemma HistoryExtends(config: Config, runs: seq<Record>, run: Record)
    requires History(config, runs)
    requires Recorded(config, runs + [run], |runs|)
    ensures History(config, runs + [run])
  {
    forall i: nat | i < |runs| ensures Recorded(config, runs + [run], i) {
      assert Recorded(config, runs, i);
      AgeKept(runs, run, i);
      if i > 0 {
        AgeKept(runs, run, i - 1);
      }
    }
  }

  ghost function NextState(config: Config, runs: seq<Record>): nat {
    if runs == [] then 0
    else runs[|runs| - 1].state + (if Closes(config, runs, |runs| - 1) then 1 else 0)
  }

  /** A run is added to the history; its state is a new one if the run before closed the one it used. */
  lemma RecordRun(config: Config, runs: seq<Record>, run: Record)
    requires History(config, runs) && run.state == NextState(config, runs)
    requires Sequenced(config, runs == [] || Closes(config, runs, |runs| - 1), run.request, run.entered, run.failed)
    ensures History(config, runs + [run])
    ensures Age(runs + [run], |runs|) ==
            if runs == [] || Closes(config, runs, |runs| - 1) then 1 else Age(runs, |runs| - 1) + 1
    ensures (runs + [run])[..|runs|] == runs
  {
    hide Sequenced, Closing, History;
    var after := runs + [run];
    if runs != [] {
      AgeKept(runs, run, |runs| - 1);
      assert after[|runs| - 1] == runs[|runs| - 1];
    }
    assert Recorded(config, after, |runs|);
    HistoryExtends(config, runs, run);
  }

  lemma {:induction false} StatesAscend(config: Config, runs: seq<Record>, i: nat, j: nat)
    requires History(config, runs) && i <= j < |runs|
    ensures runs[i].state <= runs[j].state
  {
    if i < j {
      StatesAscend(config, runs, i, j - 1);
      assert Recorded(config, runs, j);
    }
  }

  /**
   * Over every run of requests: if there is an init chunk, each Lua state enters it exactly once, as the very
   * first chunk it enters at all.
   */
  lemma InitOncePerState(config: Config, runs: seq<Record>, i: nat)
    requires History(config, runs) && i < |runs|
    ensures config.hasInit ==>
              exists f: nat | f <= i ::
                runs[f].state == runs[i].state && Init in runs[f].entered && runs[f].entered[0] == Init &&
                forall j: nat | j < |runs| && runs[j].state == runs[i].state ::
                  f <= j && (Init in runs[j].entered ==> j == f)
    ensures !config.hasInit ==> Init !in runs[i].entered
    decreases i
  {
    assert Recorded(config, runs, i);
    if First(runs, i) && config.hasInit {
      var e := runs[i].entered;
      var at :| 0 <= at < |e| && e[at] == Init;
      assert at > 0 ==> Rank(e[0]) < Rank(e[at]);
      forall j: nat | j < |runs| && runs[j].state == runs[i].state
        ensures i <= j && (Init in runs[j].entered ==> j == i)
      {
        SameStateIsLater(config, runs, i, j);
      }
    } else if config.hasInit {
      InitOncePerState(config, runs, i - 1);
    }
  }

  lemma SameStateIsLater(config: Config, runs: seq<Record>, f: nat, j: nat)
    requires History(config, runs) && f < |runs| && j < |runs| && First(runs, f)
    requires runs[j].state == runs[f].state
    ensures f <= j && (First(runs, j) ==> j == f)
    ensures Init in runs[j].entered ==> j == f
  {
    assert Recorded(config, runs, f) && Recorded(config, runs, j);
    if j < f {
      StatesAscend(config, runs, j, f - 1);
      assert false;
    }
    if f < j {
      StatesAscend(config, runs, f, j - 1);
      StatesAscend(config, runs, j - 1, j);
    }
  }

  /** No state outlives its maximum of requests, and none is given up without a reason. */
  lemma {:induction false} StateAges(config: Config, runs: seq<Record>, i: nat)
    requires History(config, runs) && i < |runs|
    ensures config.reqMax > 0 ==> Age(runs, i) <= config.reqMax
    ensures i + 1 < |runs| ==>
              (runs[i + 1].state != runs[i].state <==> Closing(runs[i]) || 0 < config.reqMax == Age(runs, i))
    ensures Age(runs, i) <= i + 1
    ensures forall j | i - Age(runs, i) < j <= i :: runs[j].state == runs[i].state
    ensures Age(runs, i) <= i ==> runs[i - Age(runs, i)].state != runs[i].state
  {
    assert Recorded(config, runs, i);
    if !First(runs, i) {
      StateAges(config, runs, i - 1);
    }
    if i + 1 < |runs| {
      assert Recorded(config, runs, i + 1);
    }
  }

  /** The requests among the first `n` that get as far as asking for a Lua state. */
  function Prepared(requests: seq<Request>, n: nat): seq<Request>
    requires n <= |requests|
  {
    if n == 0 then []
    else Prepared(requests, n - 1) + (if requests[n - 1].prepared == 0 then [requests[n - 1]] else [])
  }

  ghost predicate RunsAre(runs: seq<Record>, from: nat, requests: seq<Request>) {
    |runs| == from + |requests| && forall i | 0 <= i < |requests| :: runs[from + i].request == requests[i]
  }

  class Context {
    const config: Config
    /** Whether there is a Lua state. */
    var state: bool
    var reqCount: int
    var stateInit: bool
    var stateClose: bool
    ghost var runs: seq<Record>

    /** What holds between requests. */
    ghost predicate Idle()
      reads this
    {
      && (!state ==> reqCount == 0 && !stateInit && !stateClose)
      && (state ==> stateInit && !stateClose && reqCount > 0 && (config.reqMax > 0 ==> reqCount < config.reqMax))
    }

    ghost predicate Valid()
      reads this
    {
      && Idle()
      && History(config, runs)
      && (state <==> runs != [] && !Closes(config, runs, |runs| - 1))
      && (state ==> reqCount == Age(runs, |runs| - 1))
    }

    constructor (config: Config)
      ensures Valid() && !state && runs == [] && this.config == config
    {
      this.config := config;
      state, reqCount, stateInit, stateClose, runs := false, 0, false, false, [];
    }

    /** lws_call: None is a Lua error. */
    method Call(lctx: LuaRequest, script: Script, chunk: Chunk) returns (rc: Option<int>)
      modifies lctx, this`stateClose
      ensures lctx.chunk == chunk && lctx.entered == old(lctx.entered) + [chunk]
      ensures rc == None <==> Fails(script, chunk)
      ensures rc.Some? ==> Gives(script, rc.value)
      ensures rc.Some? && chunk == Pre ==> lctx.complete == (old(lctx.complete) || Completes(script))
      ensures chunk != Pre ==> lctx.complete == old(lctx.complete)
      ensures stateClose == (old(stateClose) || AsksClose(script, chunk))
    {
      hide Status, AsInt, Negative, Positive;
      lctx.chunk := chunk;
      lctx.entered := lctx.entered + [chunk];
      if script.LoadFails? {
        return None;
      }
      for i := 0 to |script.actions|
        invariant Reached(script, chunk, i)
        invariant lctx.chunk == chunk && lctx.entered == old(lctx.entered) + [chunk]
        invariant lctx.complete ==
          (old(lctx.complete) || (chunk == Pre && exists j | 0 <= j < i :: script.actions[j].SetComplete?))
        invariant stateClose == (old(stateClose) || exists j | 0 <= j < i :: script.actions[j] == SetClose)
      {
        match script.actions[i] {
          case SetComplete(caught) =>
            if lctx.chunk != Pre {
              if !caught {
                assert Stops(chunk, script.actions[i]);
                return None;
              }
            } else {
              lctx.complete := true;
            }
          case SetClose =>
            stateClose := true;
        }
      }
      match script.end {
        case Raises =>
          return None;
        case Returns(value) =>
          var status := Status(value);
          StatusIs(value);
          if status < 0 {
            return None;
          }
          if status > 0 && chunk == Pre {
            lctx.complete := true;
          }
          return Some(status);
      }
    }

    /** The asks of the chunks entered, other than a failure, that the state be closed. */
    ghost predicate AskedToClose(r: Request, entered: seq<Chunk>) {
      exists c | c in entered :: AsksClose(ScriptOf(r, c), c)
    }

    /** lws_run: None is a Lua error. */
    method Run(r: Request) returns (rc: Option<int>, ghost entered: seq<Chunk>)
      modifies this`stateInit, this`stateClose
      ensures Sequenced(config, !old(stateInit), r, entered, rc == None)
      ensures MainSkipped(config, r, entered)
      ensures stateClose == (old(stateClose) || AskedToClose(r, entered))
      ensures rc.Some? ==> stateInit
      ensures rc.Some? ==> Gives(if Main in entered then r.main else r.pre, rc.value)
    {
      hide Fails, Completes, AsksClose, Status, AsInt, Sequenced, MainSkipped, Gives, Negative, Positive;
      CallsSequenced(config, !stateInit, r);
      CallsSkipMain(config, !stateInit, r);
      assert ScriptOf(r, Init) == r.init && ScriptOf(r, Pre) == r.pre;
      assert ScriptOf(r, Main) == r.main && ScriptOf(r, Post) == r.post;
      entered := [];
      var lctx := new LuaRequest();
      if !stateInit {
        if config.hasInit {
          var init := Call(lctx, r.init, Init);
          entered := lctx.entered;
          if init == None {
            return None, entered;
          }
        }
        stateInit := true;
      }
      rc := Some(0);
      if config.hasPre {
        rc := Call(lctx, r.pre, Pre);
        entered := lctx.entered;
        if rc == None {
          return;
        }
      }
      if !lctx.complete {
        rc := Call(lctx, r.main, Main);
        entered := lctx.entered;
        if rc == None {
          return;
        }
      }
      if config.hasPost {
        var post := Call(lctx, r.post, Post);
        entered := lctx.entered;
        if post == None {
          return None, entered;
        }
      }
    }

    /** lws_run_state: a Lua error gives -1 and marks the state for closing. */
    method RunState(r: Request) returns (rc: int, ghost entered: seq<Chunk>, ghost failed: bool)
      modifies this`stateInit, this`stateClose
      ensures Sequenced(config, !old(stateInit), r, entered, failed)
      ensures stateClose == (old(stateClose) || failed || AskedToClose(r, entered))
      ensures !failed ==> stateInit
      ensures failed ==> rc == -1
      ensures !failed ==> Gives(if Main in entered then r.main else r.pre, rc)
    {
      var result;
      result, entered := Run(r);
      failed := result == None;
      if result.Some? {
        rc := result.value;
      } else {
        rc := -1;
        stateClose := true;
      }
    }

    /** lws_close_state */
    method Close()
      modifies this`state, this`reqCount, this`stateInit, this`stateClose
      ensures !state && reqCount == 0 && !stateInit && !stateClose
    {
      state, reqCount, stateInit, stateClose := false, 0, false, false;
    }

    /** lws_acquire_state */
    method Acquire(createFails: bool) returns (rc: int)
      modifies this`state
      ensures rc == if !old(state) && createFails then -1 else 0
      ensures state == (rc == 0)
    {
      if !state {
        if createFails {
          return -1;
        }
        state := true;
      }
      return 0;
    }

    /** lws_release_state */
    method Release()
      modifies this`state, this`reqCount, this`stateInit, this`stateClose
      ensures if old(stateClose) || 0 < config.reqMax <= old(reqCount) + 1
              then !state && reqCount == 0 && !stateInit && !stateClose
              else state == old(state) && reqCount == old(reqCount) + 1 && stateInit == old(stateInit) && !stateClose
    {
      reqCount := reqCount + 1;
      if stateClose || (config.reqMax > 0 && reqCount >= config.reqMax) {
        Close();
      }
    }

    /** The answer of lws_handle_request for a request that got a state. */
    ghost predicate Answers(run: Record, rc: int) {
      var r := run.request;
      if r.finalized != 0 then rc == r.finalized
      else if run.failed then rc == 500
      else Gives(if Main in run.entered then r.main else r.pre, rc)
    }

    /** After chunks that return nil, the answer is what main returns, or 500 if that is a failure. */
    lemma MainAnswers(run: Record, first: bool, rc: int, n: int)
      requires Sequenced(config, first, run.request, run.entered, run.failed) && Answers(run, rc)
      requires ReturnsNil(run.request.init) && ReturnsNil(run.request.pre) && ReturnsNil(run.request.post)
      requires run.request.finalized == 0 && Plain(run.request.main) && -0x8000_0000 <= n < 0x8000_0000
      ensures run.request.main.end == Returns(Integer(n)) ==> rc == if n < 0 then 500 else n
      ensures run.request.main.end == Returns(Nil) ==> rc == 0
      ensures run.request.main.end in {Returns(Other), Raises} ==> rc == 500
    {
      hide Fails, Completes, Gives, Plain, Sequenced;
      var r := run.request;
      ChunkResult(r.init, Init, rc, 0, 0);
      ChunkResult(r.pre, Pre, rc, 0, 0);
      ChunkResult(r.main, Main, rc, n, 0);
      ChunkResult(r.post, Post, rc, 0, 0);
      CallsSequenced(config, first, r);
      var (e, f) := Calls(config, first, r);
      SequencedUnique(config, first, r, run.entered, run.failed, e, f);
    }

    /** A pre chunk that returns n > 0 completes the request with the answer n. */
    lemma PreAnswers(run: Record, first: bool, rc: int, n: int)
      requires Sequenced(config, first, run.request, run.entered, run.failed) && Answers(run, rc)
      requires run.request.finalized == 0 && ReturnsNil(run.request.init) && ReturnsNil(run.request.post)
      requires config.hasPre && Plain(run.request.pre) && run.request.pre.end == Returns(Integer(n))
      ensures 0 < n < 0x8000_0000 ==> rc == n && Main !in run.entered
      ensures -0x8000_0000 <= n < 0 ==> rc == 500 && Main !in run.entered && Post !in run.entered
    {
      hide Fails, Completes, Gives, Plain, Sequenced;
      var r := run.request;
      if -0x8000_0000 <= n < 0x8000_0000 {
        ChunkResult(r.init, Init, rc, 0, 0);
        ChunkResult(r.pre, Pre, rc, n, 0);
        ChunkResult(r.post, Post, rc, 0, 0);
        CallsSequenced(config, first, r);
        var (e, f) := Calls(config, first, r);
        SequencedUnique(config, first, r, run.entered, run.failed, e, f);
      }
    }

    /** There is a state after the first n runs. */
    ghost predicate StateAfter(runs: seq<Record>, n: nat)
      requires n <= |runs|
    {
      n > 0 && !Closes(config, runs[..n], n - 1)
    }

    /** What becomes of a request that comes after n of the runs: n' is their number after it. */
    ghost predicate Handled(runs: seq<Record>, n: nat, n': nat, r: Request, rc: int) {
      && n <= n' <= |runs|
      && if r.prepared == 0 && (StateAfter(runs, n) || !r.createFails)
         then n' == n + 1 && runs[n].request == r && Answers(runs[n], rc)
         else n' == n && rc == if r.prepared != 0 then r.prepared else -1
    }

    lemma HandledLater(runs: seq<Record>, runs': seq<Record>, n: nat, n': nat, r: Request, rc: int)
      requires Handled(runs, n, n', r, rc) && runs <= runs'
      ensures Handled(runs', n, n', r, rc)
    {
      assert runs[..n] == runs'[..n];
    }

    /** lws_handle_request */
    method HandleRequest(r: Request) returns (rc: int)
      requires Valid()
      modifies this
      ensures Valid()
      ensures r.prepared != 0 || (!old(state) && r.createFails) ==>
                rc == (if r.prepared != 0 then r.prepared else -1) &&
                runs == old(runs) && state == old(state) && reqCount == old(reqCount)
      ensures r.prepared == 0 && (old(state) || !r.createFails) ==>
                |runs| == |old(runs)| + 1 && runs[..|old(runs)|] == old(runs) &&
                runs[|old(runs)|].request == r && Answers(runs[|old(runs)|], rc)
      ensures r.prepared == 0 && (old(state) || !r.createFails) && AllReturnNil(r) ==>
                rc == r.finalized && runs[|old(runs)|].entered == Configured(config, !old(state))
    {
      hide Fails, Completes, AsksClose, Status, AsInt, Sequenced, History, Gives, Negative, Positive, AllReturnNil;
      hide Configured;
      if r.prepared != 0 {
        return r.prepared;
      }
      rc := Acquire(r.createFails);
      if rc != 0 {
        return;
      }
      ghost var entered, failed;
      rc, entered, failed := RunState(r);
      if rc < 0 {
        rc := 500;
      }
      Release();
      if r.finalized != 0 {
        rc := r.finalized;
      }
      ghost var run := Record(NextState(config, runs), r, entered, failed);
      if AllReturnNil(r) {
        AllSucceed(config, !old(state), r, entered, failed);
      }
      RecordRun(config, runs, run);
      runs := runs + [run];
    }

    method HandleOne(r: Request) returns (rc: int)
      requires Valid()
      modifies this
      ensures Valid() && old(runs) <= runs
      ensures Handled(runs, |old(runs)|, |runs|, r, rc)
      ensures !r.createFails ==> RunsAre(runs, |old(runs)|, if r.prepared == 0 then [r] else [])
    {
      hide Answers, History, Closes;
      assert runs[..|runs|] == runs;
      rc := HandleRequest(r);
    }

    /**
     * Any sequence of requests: `ran[i]` is the number of runs before request i. A request is run exactly when
     * it is prepared and there is a state or one can be created.
     */
    method HandleAll(requests: seq<Request>) returns (rcs: seq<int>, ghost ran: seq<nat>)
      requires Valid()
      modifies this
      ensures Valid()
      ensures old(runs) <= runs
      ensures |rcs| == |requests| && |ran| == |requests| + 1 && ran[0] == |old(runs)| && ran[|requests|] == |runs|
      ensures forall i | 0 <= i < |requests| :: Handled(runs, ran[i], ran[i + 1], requests[i], rcs[i])
      ensures (forall r | r in requests :: !r.createFails) ==>
                RunsAre(runs, |old(runs)|, Prepared(requests, |requests|))
    {
      hide Valid, Answers, Handled;
      rcs, ran := [], [|runs|];
      for i := 0 to |requests|
        invariant Valid()
        invariant old(runs) <= runs
        invariant |rcs| == i && |ran| == i + 1 && ran[0] == |old(runs)| && ran[i] == |runs|
        invariant forall j | 0 <= j < i :: Handled(runs, ran[j], ran[j + 1], requests[j], rcs[j])
        invariant (forall r | r in requests :: !r.createFails) ==>
          RunsAre(runs, |old(runs)|, Prepared(requests, i))
      {
        ghost var before := runs;
        var rc := HandleOne(requests[i]);
        forall j | 0 <= j < i
          ensures Handled(runs, ran[j], ran[j + 1], requests[j], rcs[j])
        {
          HandledLater(before, runs, ran[j], ran[j + 1], requests[j], rcs[j]);
        }
        assert requests[i] in requests;
        rcs, ran := rcs + [rc], ran + [|runs|];
      }
    }
  }
}
