// The chunked log query of internal/ethrpc/logs.go.
module ScanLogs {
  import opened EthTypes

  const MAX_LOG_RANGE: nat := 10_000
  const MIN_LOG_RANGE: nat := 50

  // What a node answers to a query of a range of blocks: its logs, a JSON-RPC
  // error, such as for a range that is too long, or another error.
  datatype Response<Log> = Logs(logs: seq<Log>) | RpcError | OtherError

  // The answer to a request, by its number and its range.
  type Node<!Log> = (nat, nat, nat) -> Response<Log>

  // The logs of each block that match the filter.
  type Chain<!Log> = nat -> seq<Log>

  // The logs of the blocks from from to to, in order: the answer to one big query.
  function LogsIn<Log>(chain: Chain<Log>, from: nat, to: int): seq<Log>
    decreases to - from
  {
    if from > to then [] else chain(from) + LogsIn(chain, from + 1, to)
  }

  // A node that answers a query exactly, if it answers it.
  ghost predicate Honest<Log(!new)>(node: Node<Log>, chain: Chain<Log>) {
    forall k: nat, from: nat, to: nat :: node(k, from, to).Logs? ==> node(k, from, to).logs == LogsIn(chain, from, to)
  }

  lemma {:induction false} LogsInSplit<Log>(chain: Chain<Log>, from: nat, middle: nat, to: int)
    requires from <= middle <= to + 1
    ensures LogsIn(chain, from, to) == LogsIn(chain, from, middle - 1) + LogsIn(chain, middle, to)
    decreases middle - from
  {
    if from < middle {
      LogsInSplit(chain, from + 1, middle, to);
    }
  }

  // The logs of a chunk after the ones before it are the logs up to its end.
  lemma ChunkExtends<Log>(chain: Chain<Log>, start: nat, from: nat, end: int, to: int)
    requires start <= from <= end <= to
    ensures LogsIn(chain, start, from - 1) + LogsIn(chain, from, end) == LogsIn(chain, start, end)
    ensures LogsIn(chain, start, end) <= LogsIn(chain, start, to)
  {
    LogsInSplit(chain, start, from, end);
    LogsInSplit(chain, start, end + 1, to);
  }

  // The last block of the chunk from from on, in the source's 64-bit arithmetic.
  function ChunkEnd(from: nat, step: nat, to: nat): nat
    requires step > 0
  {
    var end := (from + (step - 1)) % UINT64;
    if end < to then end else to
  }

  // A chunk has its first block, and so is part of one pass over the range, exactly
  // when its end doesn't wrap around.
  lemma ChunkAdvances(from: nat, step: nat, to: nat)
    requires from <= to < UINT64 && 0 < step <= MAX_LOG_RANGE
    ensures from <= ChunkEnd(from, step, to) <==> from + (step - 1) < UINT64
  {
  }

  function Halve(step: nat): (half: nat)
    requires step > MIN_LOG_RANGE
    ensures MIN_LOG_RANGE <= half < step
  {
    if step / 2 < MIN_LOG_RANGE then MIN_LOG_RANGE else step / 2
  }

  // The step of a scan after some refusals; after eight it is as short as it gets.
  function StepAt(level: nat): (step: nat)
    ensures MIN_LOG_RANGE <= step <= MAX_LOG_RANGE && (level == 0 ==> step == MAX_LOG_RANGE)
  {
    match level
    case 0 => 10_000
    case 1 => 5_000
    case 2 => 2_500
    case 3 => 1_250
    case 4 => 625
    case 5 => 312
    case 6 => 156
    case 7 => 78
    case _ => 50
  }

  const LAST_LEVEL := 8

  lemma StepsHalve(level: nat)
    requires level <= LAST_LEVEL
    ensures level == LAST_LEVEL <==> StepAt(level) == MIN_LOG_RANGE
    ensures level < LAST_LEVEL ==> StepAt(level + 1) == Halve(StepAt(level))
  {
  }

  // Whether a chunk of a scan can start a number of blocks after the scan does, after
  // some refusals: the number is a sum of steps up to that level.
  predicate CanStart(level: nat, blocks: nat)
    requires level <= LAST_LEVEL
    decreases level, blocks
  {
    || (level == 0 && blocks == 0)
    || (level > 0 && CanStart(level - 1, blocks))
    || (StepAt(level) <= blocks && CanStart(level, blocks - StepAt(level)))
  }

  lemma {:induction false} CanStartNext(level: nat, blocks: nat)
    requires level <= LAST_LEVEL && CanStart(level, blocks)
    ensures CanStart(level, blocks + StepAt(level)) && (level < LAST_LEVEL ==> CanStart(level + 1, blocks))
  {
  }

  // Whether the end of no chunk that a scan can come to wraps, with up to some refusals,
  // which a caller can tell from the range.
  predicate AllAdvance(levels: nat, from: nat, to: nat)
    requires levels <= LAST_LEVEL
  {
    forall level :: 0 <= level <= levels ==> ChunksAdvance(level, from, to)
  }

  predicate ChunksAdvance(level: nat, from: nat, to: nat)
    requires level <= LAST_LEVEL
  {
    forall blocks :: 0 <= blocks <= to - from && CanStart(level, blocks) ==> from + blocks + (StepAt(level) - 1) < UINT64
  }

  // No end wraps if the range isn't near the top of the block numbers.
  lemma FarFromTop(from: nat, to: nat)
    requires to + MAX_LOG_RANGE <= UINT64
    ensures AllAdvance(LAST_LEVEL, from, to)
  {
    forall level | 0 <= level <= LAST_LEVEL ensures ChunksAdvance(level, from, to) {
      StepsHalve(level);
    }
  }

  // Whether the end of the last full chunk doesn't wrap.
  predicate LastAdvances(from: nat, to: nat)
    requires from <= to
  {
    from + (to - from) / MAX_LOG_RANGE * MAX_LOG_RANGE + (MAX_LOG_RANGE - 1) < UINT64
  }

  lemma {:induction false} FullChunksStart(blocks: nat)
    ensures CanStart(0, blocks) <==> blocks % MAX_LOG_RANGE == 0
  {
    if blocks >= MAX_LOG_RANGE {
      FullChunksStart(blocks - MAX_LOG_RANGE);
    }
  }

  // Without refusals, no end wraps exactly when that of the last full chunk doesn't.
  lemma {:induction false} LastIsEnough(from: nat, to: nat)
    requires from <= to
    ensures LastAdvances(from, to) <==> AllAdvance(0, from, to)
  {
    var last := (to - from) / MAX_LOG_RANGE * MAX_LOG_RANGE;
    FullChunksStart(last);
    if LastAdvances(from, to) {
      forall blocks | 0 <= blocks <= to - from && CanStart(0, blocks) ensures from + blocks + (StepAt(0) - 1) < UINT64 {
        FullChunksStart(blocks);
        assert blocks <= last;
      }
      assert ChunksAdvance(0, from, to);
    } else {
      assert !ChunksAdvance(0, from, to);
    }
  }

  // The most queries left at a block: a halving for each level left, and the chunks of
  // the blocks left.
  function QueriesLeft(level: nat, from: nat, to: nat): nat
    requires from <= to && level <= LAST_LEVEL
  {
    LAST_LEVEL - level + (to - from) / MIN_LOG_RANGE + 1
  }

  // How an iteration ends: with all of the logs, with the error of a query, or
  // because the consumer doesn't want more.
  datatype End = Done | Failed(at: nat) | Stopped

  // Whether the consumer wants more after each of the first logs of s.
  ghost predicate Wanted<Log>(more: seq<Log> -> bool, s: seq<Log>) {
    forall n :: 1 <= n <= |s| ==> more(s[..n])
  }

  // The logs up to the first one after which the consumer wants no more.
  ghost predicate StoppedAt<Log>(more: seq<Log> -> bool, yielded: seq<Log>, all: seq<Log>) {
    yielded != [] && yielded <= all && !more(yielded) && Wanted(more, yielded[..|yielded| - 1])
  }

  // Yields logs one by one, the next ones of all after those already yielded, until
  // the consumer wants no more.
  method Yield<Log>(logs: seq<Log>, more: seq<Log> -> bool, ghost all: seq<Log>, yielded: seq<Log>)
    returns (now: seq<Log>, stopped: bool)
    requires Wanted(more, yielded) && yielded + logs <= all
    ensures !stopped ==> now == yielded + logs && Wanted(more, now)
    ensures stopped ==> StoppedAt(more, now, all)
  {
    now := yielded;
    for i := 0 to |logs|
      invariant now == all[..|yielded| + i] && Wanted(more, now)
    {
      assert logs[i] == (yielded + logs)[|yielded| + i] == all[|yielded| + i];
      now := now + [logs[i]];
      WantedPrefix(more, all, |yielded| + i);
      if !more(now) {
        return now, true;
      }
    }
    assert now == (yielded + logs)[..|yielded| + |logs|];
    stopped := false;
  }

  lemma WantedPrefix<Log>(more: seq<Log> -> bool, all: seq<Log>, n: nat)
    requires n < |all| && Wanted(more, all[..n])
    ensures all[..n] + [all[n]] == all[..n + 1]
    ensures more(all[..n + 1]) ==> Wanted(more, all[..n + 1])
    ensures !more(all[..n + 1]) ==> StoppedAt(more, all[..n + 1], all)
  {
    assert all[..n + 1][..n] == all[..n] && all[..n + 1][..n + 1] == all[..n + 1];
    assert forall k {:trigger all[..n + 1][..k]} :: 1 <= k <= n ==> all[..n + 1][..k] == all[..n][..k];
  }

  // The node refused a query of a chunk, for good: with an error that isn't a JSON-RPC
  // error, or although the chunk was as short as it gets.
  predicate Refused<Log>(node: Node<Log>, request: nat, from: nat, to: nat) {
    exists end: nat :: from <= end <= to && IsRefusal(node(request, from, end), end + 1 - from)
  }

  predicate IsRefusal<Log>(response: Response<Log>, blocks: int) {
    response.OtherError? || (response.RpcError? && blocks <= MIN_LOG_RANGE)
  }

  // What a scan of the blocks from start to to has yielded when it ends: the logs of all
  // of them, of the ones before a chunk that the node refused for good, or up to the log
  // that the consumer stopped at.
  ghost predicate EndsRight<Log(!new)>(
    chain: Chain<Log>, node: Node<Log>, start: nat, to: nat, more: seq<Log> -> bool, yielded: seq<Log>, end: End,
    queries: nat)
  {
    match end
    case Done => yielded == LogsIn(chain, start, to) && Wanted(more, yielded)
    case Failed(at) =>
      && start <= at <= to && yielded == LogsIn(chain, start, at - 1) && Wanted(more, yielded)
      && queries > 0 && Refused(node, queries - 1, at, to)
    case Stopped => StoppedAt(more, yielded, LogsIn(chain, start, to))
  }

  // A node that answers every query.
  ghost predicate NeverRefuses<Log>(node: Node<Log>) {
    forall k: nat, from: nat, to: nat :: node(k, from, to).Logs?
  }

  // Queries the chunk from from on.
  method QueryChunk<Log(!new)>(
    ghost chain: Chain<Log>, node: Node<Log>, request: nat, ghost start: nat, from: nat, step: nat, to: nat)
    returns (response: Response<Log>, end: nat)
    requires Honest(node, chain)
    requires start <= from <= to && 0 < step && from + (step - 1) < UINT64
    ensures from <= end <= to && end - from < step && (end == to || end == from + step - 1)
    ensures response.OtherError? || (response.RpcError? && step <= MIN_LOG_RANGE) ==> Refused(node, request, from, to)
    ensures NeverRefuses(node) ==> response.Logs?
    ensures response.Logs? ==>
      && LogsIn(chain, start, from - 1) + response.logs == LogsIn(chain, start, end)
      && LogsIn(chain, start, end) <= LogsIn(chain, start, to)
  {
    end := ChunkEnd(from, step, to);
    response := node(request, from, end);
    assert IsRefusal(response, end + 1 - from) ==> Refused(node, request, from, to);
    ChunkExtends(chain, start, from, end, to);
  }

  // How a chunk leaves a scan: to be queried again with a smaller step, over, or with a
  // next chunk.
  datatype ChunkResult = Retry | Over(end: End) | NextFrom(from: nat)

  // Queries the chunk from from on, and yields its logs.
  method ScanChunk<Log(!new)>(
    ghost chain: Chain<Log>, node: Node<Log>, request: nat, ghost start: nat, from: nat, step: nat, to: nat,
    more: seq<Log> -> bool, yielded: seq<Log>) returns (now: seq<Log>, result: ChunkResult)
    requires Honest(node, chain)
    requires start <= from <= to && 0 < step && from + (step - 1) < UINT64
    requires yielded == LogsIn(chain, start, from - 1) && Wanted(more, yielded)
    ensures result.Retry? ==> step > MIN_LOG_RANGE && now == yielded && !NeverRefuses(node)
    ensures result.NextFrom? ==>
      result.from == from + step <= to && now == LogsIn(chain, start, result.from - 1) && Wanted(more, now)
    ensures result.Over? ==> EndsRight(chain, node, start, to, more, now, result.end, request + 1)
    ensures NeverRefuses(node) && result.Over? ==> !result.end.Failed?
  {
    var response, end := QueryChunk(chain, node, request, start, from, step, to);
    if response.RpcError? && step > MIN_LOG_RANGE {
      return yielded, Retry;
    }
    if !response.Logs? {
      return yielded, Over(Failed(from));
    }
    var stopped;
    now, stopped := Yield(response.logs, more, LogsIn(chain, start, to), yielded);
    if stopped {
      return now, Over(Stopped);
    }
    return now, if end == to then Over(Done) else NextFrom(end + 1);
  }

  // ScanLogs, whose consumer says whether it wants more after what it has got. It
  // yields exactly the logs of the one big query, in order, up to the end of the
  // range, the first chunk whose query fails, or the log that the consumer stops at.
  method Scan<Log(!new)>(ghost chain: Chain<Log>, node: Node<Log>, fromBlock: nat, toBlock: nat, more: seq<Log> -> bool)
    returns (yielded: seq<Log>, end: End, queries: nat)
    requires Honest(node, chain)
    requires fromBlock <= toBlock ==> AllAdvance(if NeverRefuses(node) then 0 else LAST_LEVEL, fromBlock, toBlock)
    ensures EndsRight(chain, node, fromBlock, toBlock, more, yielded, end, queries)
    ensures NeverRefuses(node) ==> !end.Failed?
    ensures queries <= if fromBlock > toBlock then 0 else 8 + (toBlock - fromBlock) / MIN_LOG_RANGE + 1
  {
    yielded, end, queries := [], Done, 0;
    if fromBlock > toBlock { return; }
    ghost var level := 0;
    ghost var limit := QueriesLeft(level, fromBlock, toBlock);
    var step, from := MAX_LOG_RANGE, fromBlock;
    while true
      invariant level <= (if NeverRefuses(node) then 0 else LAST_LEVEL) && step == StepAt(level)
      invariant fromBlock <= from <= toBlock && CanStart(level, from - fromBlock)
      invariant yielded == LogsIn(chain, fromBlock, from - 1) && Wanted(more, yielded)
      invariant queries + QueriesLeft(level, from, toBlock) <= limit
      decreases toBlock - from, LAST_LEVEL - level
    {
      StepsHalve(level);
      assert ChunksAdvance(level, fromBlock, toBlock);
      CanStartNext(level, from - fromBlock);
      var result;
      yielded, result := ScanChunk(chain, node, queries, fromBlock, from, step, toBlock, more, yielded);
      queries := queries + 1;
      match result {
        case Retry =>
          step := Halve(step);
          level := level + 1;
        case Over(e) =>
          end := e;
          return;
        case NextFrom(next) => from := next;
      }
    }
  }

  // ---- Where the end of a chunk wraps -----------------------------------------------------

  // Which requests a node refuses with a JSON-RPC error, by their numbers.
  type Refusals = nat -> bool

  // The scan of a node that answers or refuses each query, after a number of queries:
  // going on from a block, finished, or with the error of a query.
  datatype Pass = Going(from: nat, level: nat) | Finished | GaveUp(at: nat)

  predicate IsPass(p: Pass) {
    p.Going? ==> p.level <= LAST_LEVEL
  }

  // What one query does, refused or not.
  function NextPass(p: Pass, refused: bool, to: nat): (next: Pass)
    requires IsPass(p)
    ensures IsPass(next)
  {
    match p
    case Finished => p
    case GaveUp(at) => p
    case Going(start, level) =>
      if refused then
        if level == LAST_LEVEL then GaveUp(start) else Going(start, level + 1)
      else
        var end := ChunkEnd(start, StepAt(level), to);
        if end == to then Finished else Going(end + 1, level)
  }

  // The logs that it yields. A query from a block on to an earlier one has no logs.
  function YieldsAt<Log>(chain: Chain<Log>, p: Pass, refused: bool, to: nat): seq<Log>
    requires IsPass(p)
  {
    if p.Going? && !refused then LogsIn(chain, p.from, ChunkEnd(p.from, StepAt(p.level), to)) else []
  }

  function PassAfter(refuses: Refusals, from: nat, to: nat, n: nat): (p: Pass)
    ensures IsPass(p)
  {
    if n == 0 then Going(from, 0) else NextPass(PassAfter(refuses, from, to, n - 1), refuses(n - 1), to)
  }

  function YieldedBy<Log>(chain: Chain<Log>, refuses: Refusals, from: nat, to: nat, n: nat): seq<Log> {
    if n == 0 then []
    else
      YieldedBy(chain, refuses, from, to, n - 1)
      + YieldsAt(chain, PassAfter(refuses, from, to, n - 1), refuses(n - 1), to)
  }

  // The scan is over, with the answer to one big query, or with the part of it before a
  // block whose query was refused.
  predicate IsRightAfter<Log(==)>(chain: Chain<Log>, refuses: Refusals, from: nat, to: nat, n: nat)
    requires from <= to < UINT64
  {
    match PassAfter(refuses, from, to, n)
    case Going(_, _) => false
    case Finished => YieldedBy(chain, refuses, from, to, n) == LogsIn(chain, from, to)
    case GaveUp(at) =>
      && from <= at <= to && YieldedBy(chain, refuses, from, to, n) == LogsIn(chain, from, at - 1)
      && exists k :: 0 <= k < n && refuses(k)
  }

  ghost predicate ScansRight<Log(!new)>(chain: Chain<Log>, refuses: Refusals, from: nat, to: nat)
    requires from <= to < UINT64
  {
    exists n :: IsRightAfter(chain, refuses, from, to, n)
  }

  // A query of a chunk whose end doesn't wrap, after the right logs.
  lemma {:induction false} ChunkIsRight<Log>(
    chain: Chain<Log>, from: nat, to: nat, start: nat, level: nat, next: nat)
    requires from <= start <= to && level <= LAST_LEVEL && next == start + StepAt(level) <= UINT64
    ensures NextPass(Going(start, level), false, to) == (if next <= to then Going(next, level) else Finished)
    ensures LogsIn(chain, from, start - 1) + YieldsAt(chain, Going(start, level), false, to)
         == LogsIn(chain, from, if next <= to then next - 1 else to)
  {
    ChunkExtends(chain, from, start, if next <= to then next - 1 else to, to);
  }

  lemma {:induction false} QueryAfter<Log>(chain: Chain<Log>, refuses: Refusals, from: nat, to: nat, n: nat)
    ensures var p := PassAfter(refuses, from, to, n);
            && PassAfter(refuses, from, to, n + 1) == NextPass(p, refuses(n), to)
            && YieldedBy(chain, refuses, from, to, n + 1)
               == YieldedBy(chain, refuses, from, to, n) + YieldsAt(chain, p, refuses(n), to)
  {
  }

  // What a scan that is right so far has done: it goes on from a block, and
  // has yielded the logs before it.
  predicate IsRightSoFar<Log(==)>(
    chain: Chain<Log>, refuses: Refusals, from: nat, to: nat, n: nat, level: nat, blocks: nat)
  {
    && from + blocks <= to < UINT64 && level <= LAST_LEVEL
    && PassAfter(refuses, from, to, n) == Going(from + blocks, level)
    && YieldedBy(chain, refuses, from, to, n) == LogsIn(chain, from, from + blocks - 1)
  }

  lemma {:induction false} RefusedStaysRight<Log>(
    chain: Chain<Log>, refuses: Refusals, from: nat, to: nat, n: nat, level: nat, blocks: nat)
    requires IsRightSoFar(chain, refuses, from, to, n, level, blocks) && refuses(n)
    ensures if level == LAST_LEVEL then IsRightAfter(chain, refuses, from, to, n + 1)
            else IsRightSoFar(chain, refuses, from, to, n + 1, level + 1, blocks)
  {
    QueryAfter(chain, refuses, from, to, n);
    assert YieldsAt<Log>(chain, Going(from + blocks, level), true, to) == [];
  }

  lemma {:induction false} AnsweredGoesOn<Log>(
    chain: Chain<Log>, refuses: Refusals, from: nat, to: nat, n: nat, level: nat, blocks: nat, next: nat)
    requires IsRightSoFar(chain, refuses, from, to, n, level, blocks) && !refuses(n)
    requires next == blocks + StepAt(level) && from + next <= to
    ensures IsRightSoFar(chain, refuses, from, to, n + 1, level, next)
  {
    QueryAfter(chain, refuses, from, to, n);
    ChunkIsRight(chain, from, to, from + blocks, level, from + next);
  }

  lemma {:induction false} AnsweredFinishes<Log>(
    chain: Chain<Log>, refuses: Refusals, from: nat, to: nat, n: nat, level: nat, blocks: nat, next: nat)
    requires IsRightSoFar(chain, refuses, from, to, n, level, blocks) && !refuses(n)
    requires next == blocks + StepAt(level) && to < from + next <= UINT64
    ensures IsRightAfter(chain, refuses, from, to, n + 1)
  {
    QueryAfter(chain, refuses, from, to, n);
    ChunkIsRight(chain, from, to, from + blocks, level, from + next);
  }

  // From there on, a scan in which no end wraps ends right.
  lemma {:induction false} AdvancingScanIsRight<Log(!new)>(
    chain: Chain<Log>, refuses: Refusals, from: nat, to: nat, levels: nat, n: nat, level: nat, blocks: nat)
    requires level <= levels <= LAST_LEVEL && AllAdvance(levels, from, to)
    requires levels == LAST_LEVEL || forall k :: !refuses(k)
    requires IsRightSoFar(chain, refuses, from, to, n, level, blocks) && CanStart(level, blocks)
    ensures from <= to < UINT64 && ScansRight(chain, refuses, from, to)
    decreases (to - blocks), LAST_LEVEL - level
  {
    assert ChunksAdvance(level, from, to);
    CanStartNext(level, blocks);
    if refuses(n) {
      RefusedStaysRight(chain, refuses, from, to, n, level, blocks);
      if level < LAST_LEVEL {
        AdvancingScanIsRight(chain, refuses, from, to, levels, n + 1, level + 1, blocks);
      }
    } else {
      var next := blocks + StepAt(level);
      if from + next <= to {
        AnsweredGoesOn(chain, refuses, from, to, n, level, blocks, next);
        AdvancingScanIsRight(chain, refuses, from, to, levels, n + 1, level, next);
      } else {
        AnsweredFinishes(chain, refuses, from, to, n, level, blocks, next);
      }
    }
  }

  function In(refused: set<nat>): Refusals {
    k => k in refused
  }

  // A scan doesn't depend on later refusals.
  lemma {:induction false} SameSoFar<Log>(chain: Chain<Log>, a: Refusals, b: Refusals, from: nat, to: nat, n: nat)
    requires from <= to < UINT64 && forall k :: 0 <= k < n ==> a(k) == b(k)
    ensures PassAfter(a, from, to, n) == PassAfter(b, from, to, n)
    ensures YieldedBy(chain, a, from, to, n) == YieldedBy(chain, b, from, to, n)
  {
    if n > 0 {
      SameSoFar(chain, a, b, from, to, n - 1);
    }
  }

  lemma {:induction false} StartIsRight<Log>(chain: Chain<Log>, refuses: Refusals, from: nat, to: nat)
    requires from <= to < UINT64
    ensures IsRightSoFar(chain, refuses, from, to, 0, 0, 0)
  {
  }

  // Some refusals make a scan come to a block.
  ghost predicate ComesTo<Log(!new)>(
    chain: Chain<Log>, from: nat, to: nat, refused: set<nat>, n: nat, level: nat, blocks: nat)
  {
    && (forall k :: k in refused ==> k < n) && (level == 0 ==> refused == {})
    && IsRightSoFar(chain, In(refused), from, to, n, level, blocks)
  }

  lemma {:induction false} ComesAtStart<Log(!new)>(chain: Chain<Log>, from: nat, to: nat)
    requires from <= to < UINT64
    ensures ComesTo(chain, from, to, {}, 0, 0, 0)
  {
    StartIsRight(chain, In({}), from, to);
  }

  lemma {:induction false} ComesRefused<Log(!new)>(
    chain: Chain<Log>, from: nat, to: nat, before: set<nat>, n: nat, level: nat, blocks: nat)
    requires level < LAST_LEVEL && ComesTo(chain, from, to, before, n, level, blocks)
    ensures ComesTo(chain, from, to, before + {n}, n + 1, level + 1, blocks)
  {
    SameSoFar(chain, In(before), In(before + {n}), from, to, n);
    RefusedStaysRight(chain, In(before + {n}), from, to, n, level, blocks);
  }

  lemma {:induction false} ComesAnswered<Log(!new)>(
    chain: Chain<Log>, from: nat, to: nat, refused: set<nat>, n: nat, level: nat, blocks: nat)
    requires level <= LAST_LEVEL && ComesTo(chain, from, to, refused, n, level, blocks)
    requires from + blocks + StepAt(level) <= to
    ensures ComesTo(chain, from, to, refused, n + 1, level, blocks + StepAt(level))
  {
    AnsweredGoesOn(chain, In(refused), from, to, n, level, blocks, blocks + StepAt(level));
  }

  // A node can make a scan come to every block that a chunk can start at.
  lemma {:induction false} CanCome<Log(!new)>(chain: Chain<Log>, from: nat, to: nat, level: nat, blocks: nat)
    returns (refused: set<nat>, n: nat)
    requires level <= LAST_LEVEL && CanStart(level, blocks) && from + blocks <= to < UINT64
    ensures ComesTo(chain, from, to, refused, n, level, blocks)
    decreases level, blocks
  {
    if level == 0 && blocks == 0 {
      refused, n := {}, 0;
      ComesAtStart(chain, from, to);
    } else if level > 0 && CanStart(level - 1, blocks) {
      refused, n := CanCome(chain, from, to, level - 1, blocks);
      ComesRefused(chain, from, to, refused, n, level - 1, blocks);
      refused, n := refused + {n}, n + 1;
    } else {
      var before := blocks - StepAt(level);
      refused, n := CanCome(chain, from, to, level, before);
      ComesAnswered(chain, from, to, refused, n, level, before);
      n := n + 1;
    }
  }

  // A chain with one log, in one block.
  function OneLog(block: nat): Chain<nat> {
    (b: nat) => if b == block then [b] else []
  }

  lemma {:induction false} LogsOfOneLog(block: nat, from: nat, to: int)
    ensures LogsIn(OneLog(block), from, to) == (if from <= block <= to then [block] else [])
    decreases if from <= to then to + 1 - from else 0
  {
    if from <= to {
      LogsOfOneLog(block, from + 1, to);
    }
  }

  // What was yielded stays, and a scan that is over is.
  lemma {:induction false} YieldedGrows<Log>(
    chain: Chain<Log>, refuses: Refusals, from: nat, to: nat, m: nat, n: nat)
    requires m <= n
    ensures |YieldedBy(chain, refuses, from, to, m)| <= |YieldedBy(chain, refuses, from, to, n)|
    ensures !PassAfter(refuses, from, to, m).Going? ==> !PassAfter(refuses, from, to, n).Going?
    decreases n
  {
    if m < n {
      YieldedGrows(chain, refuses, from, to, m, n - 1);
    }
  }

  // The block that a scan goes on from if the end of a chunk wraps.
  function Wrapped(start: nat, level: nat): (block: nat)
    requires level <= LAST_LEVEL && start < UINT64 <= start + (StepAt(level) - 1)
    ensures 1 <= block < StepAt(level)
  {
    start + StepAt(level) - UINT64
  }

  // If the end of a chunk wraps, the scan goes on from a block below it, and the second
  // query from there on yields that block's logs.
  lemma {:induction false} WrappedChunkYields(to: nat, start: nat, level: nat)
    requires start <= to < UINT64 && level <= LAST_LEVEL && UINT64 <= start + (StepAt(level) - 1)
    ensures var block := Wrapped(start, level);
            && NextPass(Going(start, level), false, to) == Going(block, level)
            && YieldsAt(OneLog(block), Going(start, level), false, to) == []
            && YieldsAt(OneLog(block), Going(block, level), false, to) == [block]
  {
    var block := Wrapped(start, level);
    assert ChunkEnd(start, StepAt(level), to) == block - 1;
    LogsOfOneLog(block, start, block - 1);
    LogsOfOneLog(block, block, ChunkEnd(block, StepAt(level), to));
  }

  // If the end of a chunk that a scan can come to wraps, there are a node and a chain
  // with one log, for which the scan is wrong whenever it is over: the log is yielded
  // although it isn't in the range, or for the second time.
  lemma {:induction false} WrappedScanIsWrong(from: nat, to: nat, level: nat, blocks: nat)
    returns (refused: set<nat>, block: nat)
    requires level <= LAST_LEVEL && CanStart(level, blocks) && from + blocks <= to < UINT64
    requires UINT64 <= from + blocks + (StepAt(level) - 1)
    ensures level == 0 ==> refused == {}
    ensures forall n :: !IsRightAfter(OneLog(block), In(refused), from, to, n)
  {
    var start, wrap := from + blocks, 0;
    block := Wrapped(start, level);
    refused, wrap := CanCome(OneLog(block), from, to, level, blocks);
    RightSoFarYields(In(refused), from, to, wrap, level, blocks, block);
    WrapYieldsOnceMore(In(refused), from, to, wrap, start, level);
    YieldsTooMuch(In(refused), from, to, block, wrap + 1);
  }

  // The logs of a chain with one log in a range.
  function Count(from: nat, to: int, block: nat): nat {
    if from <= block <= to then 1 else 0
  }

  // Before the wrap, a scan has yielded that log if it is in the range.
  lemma {:induction false} RightSoFarYields(
    refuses: Refusals, from: nat, to: nat, n: nat, level: nat, blocks: nat, block: nat)
    requires IsRightSoFar(OneLog(block), refuses, from, to, n, level, blocks) && block < from + blocks
    ensures |YieldedBy(OneLog(block), refuses, from, to, n)| == Count(from, to, block)
  {
    LogsOfOneLog(block, from, from + blocks - 1);
  }

  lemma {:induction false} WrapYieldsOnceMore(refuses: Refusals, from: nat, to: nat, wrap: nat, start: nat, level: nat)
    requires level <= LAST_LEVEL && start <= to < UINT64 <= start + (StepAt(level) - 1)
    requires PassAfter(refuses, from, to, wrap) == Going(start, level) && !refuses(wrap) && !refuses(wrap + 1)
    ensures PassAfter(refuses, from, to, wrap + 1).Going?
    ensures var chain := OneLog(Wrapped(start, level));
            |YieldedBy(chain, refuses, from, to, wrap + 2)| == |YieldedBy(chain, refuses, from, to, wrap)| + 1
  {
    var chain := OneLog(Wrapped(start, level));
    WrappedChunkYields(to, start, level);
    QueryAfter(chain, refuses, from, to, wrap);
    QueryAfter(chain, refuses, from, to, wrap + 1);
  }

  lemma {:induction false} RightYieldsFew(refuses: Refusals, from: nat, to: nat, block: nat, n: nat)
    requires from <= to < UINT64 && IsRightAfter(OneLog(block), refuses, from, to, n)
    ensures !PassAfter(refuses, from, to, n).Going?
    ensures |YieldedBy(OneLog(block), refuses, from, to, n)| <= Count(from, to, block)
  {
    match PassAfter(refuses, from, to, n)
    case Finished => LogsOfOneLog(block, from, to);
    case GaveUp(at) => LogsOfOneLog(block, from, at - 1);
  }

  // A scan that went on after a query, and then yielded too much, is never right.
  lemma {:induction false} YieldsTooMuch(refuses: Refusals, from: nat, to: nat, block: nat, wrap: nat)
    requires from <= to < UINT64 && PassAfter(refuses, from, to, wrap).Going?
    requires |YieldedBy(OneLog(block), refuses, from, to, wrap + 1)| > Count(from, to, block)
    ensures forall n :: !IsRightAfter(OneLog(block), refuses, from, to, n)
  {
    forall n | IsRightAfter(OneLog(block), refuses, from, to, n) ensures false {
      RightYieldsFew(refuses, from, to, block, n);
      MoreYields(refuses, from, to, block, wrap, n);
    }
  }

  lemma {:induction false} MoreYields(refuses: Refusals, from: nat, to: nat, block: nat, wrap: nat, n: nat)
    requires PassAfter(refuses, from, to, wrap).Going? && !PassAfter(refuses, from, to, n).Going?
    ensures |YieldedBy(OneLog(block), refuses, from, to, wrap + 1)| <= |YieldedBy(OneLog(block), refuses, from, to, n)|
  {
    if n <= wrap {
      YieldedGrows(OneLog(block), refuses, from, to, n, wrap);
    } else {
      YieldedGrows(OneLog(block), refuses, from, to, wrap + 1, n);
    }
  }

  // With a node that answers every query, a scan of a range yields its logs, on every
  // chain, exactly when the end of the last full chunk doesn't wrap.
  lemma {:induction false} ExactIffLastAdvances(from: nat, to: nat)
    requires from <= to < UINT64
    ensures (forall chain: Chain<nat> :: ScansRight(chain, In({}), from, to)) <==> LastAdvances(from, to)
  {
    LastIsEnough(from, to);
    StepsHalve(0);
    if LastAdvances(from, to) {
      forall chain: Chain<nat> ensures ScansRight(chain, In({}), from, to) {
        StartIsRight(chain, In({}), from, to);
        AdvancingScanIsRight(chain, In({}), from, to, 0, 0, 0, 0);
      }
    } else {
      assert !ChunksAdvance(0, from, to);
      var blocks :| 0 <= blocks <= to - from && CanStart(0, blocks) && UINT64 <= from + blocks + (StepAt(0) - 1);
      var refused, block := WrappedScanIsWrong(from, to, 0, blocks);
      assert !ScansRight(OneLog(block), In({}), from, to);
    }
  }

  // Whatever queries a node refuses, a scan of a range is right, on every chain, exactly
  // when no end of a chunk that it can come to wraps.
  lemma {:induction false} RightIffAllAdvance(from: nat, to: nat)
    requires from <= to < UINT64
    ensures (forall chain: Chain<nat>, refuses: Refusals :: ScansRight(chain, refuses, from, to))
       <==> AllAdvance(LAST_LEVEL, from, to)
  {
    StepsHalve(0);
    if AllAdvance(LAST_LEVEL, from, to) {
      forall chain: Chain<nat>, refuses: Refusals ensures ScansRight(chain, refuses, from, to) {
        StartIsRight(chain, refuses, from, to);
        AdvancingScanIsRight(chain, refuses, from, to, LAST_LEVEL, 0, 0, 0);
      }
    } else {
      var level :| 0 <= level <= LAST_LEVEL && !ChunksAdvance(level, from, to);
      var blocks :| 0 <= blocks <= to - from && CanStart(level, blocks) && UINT64 <= from + blocks + (StepAt(level) - 1);
      var refused, block := WrappedScanIsWrong(from, to, level, blocks);
      assert !ScansRight(OneLog(block), In(refused), from, to);
    }
  }
}
