/** The instruction loop of CpuBase with its cache of decoded instructions. */
module DecodeCache {
  import opened Words
  import opened Bus
  import opened Wrappers

  /** A core, apart from its cache: where it fetches, what is stored there, and how a fetched word is decoded
      and executed.  The code does not change. */
  datatype Core<!S, !Insn> = Core(pc: S -> nat, code: nat -> nat, decode: nat -> Insn, exec: (Insn, S) -> S)

  /** What the surroundings do in one round: a pending exception leaves a new state instead of an
      instruction; the debugger may change the state and may refuse the instruction. */
  datatype Round<!S> = Round(exception: S -> Option<S>, debugger: S -> S, resume: S -> bool)

  /** The state at the lookup of a round, if the round gets that far; otherwise the state it ends with. */
  datatype Arrival<S> = Lookup(state: S) | Skipped(state: S)

  function Arrive<S>(s: S, round: Round<S>): Arrival<S> {
    match round.exception(s)
    case Some(s') => Skipped(s')
    case None => if round.resume(s) then Lookup(round.debugger(s)) else Skipped(round.debugger(s))
  }

  /** One round of a machine that decodes every instruction it executes. */
  function PlainStep<S, Insn>(core: Core<S, Insn>, s: S, round: Round<S>): S {
    match Arrive(s, round)
    case Skipped(s') => s'
    case Lookup(s') => core.exec(core.decode(core.code(core.pc(s))), s')
  }

  function PlainRun<S, Insn>(core: Core<S, Insn>, s: S, rounds: seq<Round<S>>): S {
    if rounds == [] then s
    else PlainStep(core, PlainRun(core, s, rounds[..|rounds| - 1]), rounds[|rounds| - 1])
  }

  type InsnCache<Insn> = map<nat, Insn>

  /** The cached handlers are those of the words at their addresses. */
  ghost predicate Faithful<S, Insn>(core: Core<S, Insn>, cache: InsnCache<Insn>) {
    forall a | a in cache :: cache[a] == core.decode(core.code(a))
  }

  /** The handler a lookup gives, after decoding the fetched word if there is none yet, and the cache then. */
  function LookUp<S, Insn>(core: Core<S, Insn>, cache: InsnCache<Insn>, fetched: nat, pc: nat): (Insn, InsnCache<Insn>) {
    if pc in cache then (cache[pc], cache)
    else var insn := core.decode(fetched); (insn, cache[pc := insn])
  }

  /** A lookup gives the handler of the fetched word and keeps the cache faithful exactly if the word at the
      address of the lookup is decoded like the fetched one. */
  lemma LookUpFaithful<S, Insn>(core: Core<S, Insn>, cache: InsnCache<Insn>, fetchPc: nat, pc: nat)
    requires Faithful(core, cache)
    ensures var (insn, cache') := LookUp(core, cache, core.code(fetchPc), pc);
            insn == core.decode(core.code(fetchPc)) && Faithful(core, cache') <==>
            core.decode(core.code(pc)) == core.decode(core.code(fetchPc))
  {
    var (insn, cache') := LookUp(core, cache, core.code(fetchPc), pc);
    assert pc in cache' && cache'[pc] == insn;
  }

  /** Does a round leave the pc, between fetch and lookup, at an instruction decoded like the fetched one? */
  predicate Steady<S, Insn(==)>(core: Core<S, Insn>, s: S, round: Round<S>) {
    var arrival := Arrive(s, round);
    arrival.Lookup? ==> core.decode(core.code(core.pc(arrival.state))) == core.decode(core.code(core.pc(s)))
  }

  predicate Undisturbed<S, Insn(==)>(core: Core<S, Insn>, s: S, rounds: seq<Round<S>>) {
    forall i | 0 <= i < |rounds| :: Steady(core, PlainRun(core, s, rounds[..i]), rounds[i])
  }

  /** State and cache after a round of the loop of thread_process, and after any number of them. */
  function CachedStep<S, Insn>(core: Core<S, Insn>, s: S, cache: InsnCache<Insn>, round: Round<S>): (S, InsnCache<Insn>) {
    match Arrive(s, round)
    case Skipped(s') => (s', cache)
    case Lookup(s') =>
      var (insn, cache') := LookUp(core, cache, core.code(core.pc(s)), core.pc(s'));
      (core.exec(insn, s'), cache')
  }

  function CachedRun<S, Insn>(core: Core<S, Insn>, s: S, cache: InsnCache<Insn>, rounds: seq<Round<S>>): (S, InsnCache<Insn>) {
    if rounds == [] then (s, cache)
    else
      var (s', cache') := CachedRun(core, s, cache, rounds[..|rounds| - 1]);
      CachedStep(core, s', cache', rounds[|rounds| - 1])
  }

  /** Does a round execute the handler of the word it fetched, and leave the cache faithful? */
  ghost predicate Right<S, Insn>(core: Core<S, Insn>, s: S, cache: InsnCache<Insn>, round: Round<S>) {
    match Arrive(s, round)
    case Skipped(_) => Faithful(core, cache)
    case Lookup(s') =>
      var (insn, cache') := LookUp(core, cache, core.code(core.pc(s)), core.pc(s'));
      insn == core.decode(core.code(core.pc(s))) && Faithful(core, cache')
  }

  ghost predicate AllRight<S, Insn>(core: Core<S, Insn>, s: S, cache: InsnCache<Insn>, rounds: seq<Round<S>>) {
    forall i | 0 <= i < |rounds| ::
      var (s', cache') := CachedRun(core, s, cache, rounds[..i]);
      Right(core, s', cache', rounds[i])
  }

  lemma RightStep<S, Insn>(core: Core<S, Insn>, s: S, cache: InsnCache<Insn>, round: Round<S>)
    requires Faithful(core, cache)
    ensures Right(core, s, cache, round) <==> Steady(core, s, round)
    ensures Right(core, s, cache, round) ==>
              CachedStep(core, s, cache, round).0 == PlainStep(core, s, round) && Faithful(core, CachedStep(core, s, cache, round).1)
  {
    var arrival := Arrive(s, round);
    LookUpFaithful(core, cache, core.pc(s), core.pc(arrival.state));
  }

  /** Every round of a run is right exactly if the run is undisturbed; its states are then those of the machine that
      decodes every time. */
  lemma {:induction false} RightRun<S, Insn>(core: Core<S, Insn>, s: S, cache: InsnCache<Insn>, rounds: seq<Round<S>>)
    requires Faithful(core, cache)
    ensures AllRight(core, s, cache, rounds) <==> Undisturbed(core, s, rounds)
    ensures AllRight(core, s, cache, rounds) ==>
              CachedRun(core, s, cache, rounds).0 == PlainRun(core, s, rounds) && Faithful(core, CachedRun(core, s, cache, rounds).1)
    decreases |rounds|
  {
    if rounds != [] {
      var n := |rounds| - 1;
      var (s', cache') := CachedRun(core, s, cache, rounds[..n]);
      RightRun(core, s, cache, rounds[..n]);
      RightLast(core, s, cache, rounds);
      UndisturbedLast(core, s, rounds);
      hide AllRight, Undisturbed, Right, Steady, Faithful, PlainStep, CachedStep;
      if AllRight(core, s, cache, rounds[..n]) {
        RightStep(core, s', cache', rounds[n]);
      }
    }
  }

  lemma RightLast<S, Insn>(core: Core<S, Insn>, s: S, cache: InsnCache<Insn>, rounds: seq<Round<S>>)
    requires rounds != []
    ensures var n := |rounds| - 1; var (s', cache') := CachedRun(core, s, cache, rounds[..n]);
            AllRight(core, s, cache, rounds) <==> AllRight(core, s, cache, rounds[..n]) && Right(core, s', cache', rounds[n])
  {
    hide CachedRun, Right;
    var n := |rounds| - 1;
    forall i | 0 <= i <= n ensures rounds[..n][..i] == rounds[..i] {}
    assert forall i | 0 <= i < n :: rounds[..n][i] == rounds[i];
  }

  lemma UndisturbedLast<S, Insn>(core: Core<S, Insn>, s: S, rounds: seq<Round<S>>)
    requires rounds != []
    ensures var n := |rounds| - 1;
            Undisturbed(core, s, rounds) <==> Undisturbed(core, s, rounds[..n]) && Steady(core, PlainRun(core, s, rounds[..n]), rounds[n])
  {
    hide PlainRun, Steady;
    var n := |rounds| - 1;
    forall i | 0 <= i <= n ensures rounds[..n][..i] == rounds[..i] {}
    assert forall i | 0 <= i < n :: rounds[..n][i] == rounds[i];
  }

  class Cpu<S, Insn> {
    const core: Core<S, Insn>
    var state: S
    var insncache: InsnCache<Insn>

    constructor (core: Core<S, Insn>, state: S)
      ensures this.core == core && this.state == state && insncache == map[]
    {
      this.core, this.state, insncache := core, state, map[];
    }

    /** One round of the loop of thread_process.  An exception replaces everything else; a debugger that refuses the
        instruction leaves its own state; otherwise the handler under the pc that the debugger leaves is executed. */
    method Step(round: Round<S>)
      modifies this
      ensures (state, insncache) == CachedStep(core, old(state), old(insncache), round)
      ensures var (s, cache) := (old(state), old(insncache));
              if round.exception(s).Some? then state == round.exception(s).value && insncache == cache
              else if !round.resume(s) then state == round.debugger(s) && insncache == cache
              else
                var s' := round.debugger(s); var pc := core.pc(s');
                && pc in insncache && state == core.exec(insncache[pc], s')
                && insncache == if pc in cache then cache else cache[pc := core.decode(core.code(core.pc(s)))]
    {
      var fetched := core.code(core.pc(state));
      var pending := round.exception(state);
      if pending.Some? {
        state := pending.value;
        return;
      }
      var resume := round.resume(state);
      state := round.debugger(state);
      if !resume {
        return;
      }
      var pc := core.pc(state);
      if pc !in insncache {
        var insn := core.decode(fetched);
        insncache := insncache[pc := insn];
        state := core.exec(insn, state);
      } else {
        state := core.exec(insncache[pc], state);
      }
    }

    /** thread_process, for any number of rounds and any exceptions and debugger.  Every round is right exactly if
        nothing moves the pc, between fetch and lookup, to a word that decodes differently; then the loop passes
        through the states of the machine that decodes every time. */
    method ThreadProcess(rounds: seq<Round<S>>) returns (ghost states: seq<S>)
      modifies this
      ensures (state, insncache) == CachedRun(core, old(state), old(insncache), rounds)
      ensures |states| == |rounds|
      ensures forall i | 0 <= i < |rounds| :: states[i] == CachedRun(core, old(state), old(insncache), rounds[..i + 1]).0
      ensures Faithful(core, old(insncache)) ==>
                (AllRight(core, old(state), old(insncache), rounds) <==> Undisturbed(core, old(state), rounds))
      ensures Faithful(core, old(insncache)) && Undisturbed(core, old(state), rounds) ==>
                && Faithful(core, insncache) && state == PlainRun(core, old(state), rounds)
                && forall i | 0 <= i < |rounds| :: states[i] == PlainRun(core, old(state), rounds[..i + 1])
    {
      hide *;
      ghost var s, cache := state, insncache;
      states := [];
      StartsWith(core, s, cache, rounds);
      for i := 0 to |rounds|
        invariant (state, insncache) == CachedRun(core, s, cache, rounds[..i])
        invariant |states| == i && forall j | 0 <= j < i :: states[j] == CachedRun(core, s, cache, rounds[..j + 1]).0
      {
        RunsOn(core, s, cache, rounds, i);
        Step(rounds[i]);
        states := states + [state];
      }
      RightStates(core, s, cache, rounds, states);
    }
  }

  lemma StartsWith<S, Insn>(core: Core<S, Insn>, s: S, cache: InsnCache<Insn>, rounds: seq<Round<S>>)
    ensures CachedRun(core, s, cache, rounds[..0]) == (s, cache)
  {
  }

  lemma RunsOn<S, Insn>(core: Core<S, Insn>, s: S, cache: InsnCache<Insn>, rounds: seq<Round<S>>, i: nat)
    requires i < |rounds|
    ensures var (s', cache') := CachedRun(core, s, cache, rounds[..i]);
            CachedRun(core, s, cache, rounds[..i + 1]) == CachedStep(core, s', cache', rounds[i])
  {
    hide CachedStep;
    assert rounds[..i + 1][..i] == rounds[..i];
  }

  /** What the states of a run tell, if it begins with a faithful cache. */
  lemma RightStates<S, Insn>(core: Core<S, Insn>, s: S, cache: InsnCache<Insn>, rounds: seq<Round<S>>, states: seq<S>)
    requires |states| == |rounds| && forall i | 0 <= i < |rounds| :: states[i] == CachedRun(core, s, cache, rounds[..i + 1]).0
    ensures CachedRun(core, s, cache, rounds[..|rounds|]) == CachedRun(core, s, cache, rounds)
    ensures Faithful(core, cache) ==> (AllRight(core, s, cache, rounds) <==> Undisturbed(core, s, rounds))
    ensures Faithful(core, cache) && Undisturbed(core, s, rounds) ==>
              && Faithful(core, CachedRun(core, s, cache, rounds).1) && CachedRun(core, s, cache, rounds).0 == PlainRun(core, s, rounds)
              && forall i | 0 <= i < |rounds| :: states[i] == PlainRun(core, s, rounds[..i + 1])
  {
    hide *;
    assert rounds[..|rounds|] == rounds;
    if Faithful(core, cache) {
      RightRun(core, s, cache, rounds);
      forall i | 0 <= i < |states| && Undisturbed(core, s, rounds) ensures states[i] == PlainRun(core, s, rounds[..i + 1]) {
        UndisturbedPrefix(core, s, rounds, i + 1);
        RightRun(core, s, cache, rounds[..i + 1]);
      }
    }
  }

  lemma UndisturbedPrefix<S, Insn>(core: Core<S, Insn>, s: S, rounds: seq<Round<S>>, n: nat)
    requires Undisturbed(core, s, rounds) && n <= |rounds|
    ensures Undisturbed(core, s, rounds[..n])
  {
    hide PlainRun, Steady;
    forall i | 0 <= i < n ensures Steady(core, PlainRun(core, s, rounds[..n][..i]), rounds[..n][i]) {
      assert rounds[..n][..i] == rounds[..i];
    }
  }

  /** A core whose state is its pc and the last word executed, which jumps nowhere. */
  const WAITING: Core<(nat, nat), nat> := Core((s: (nat, nat)) => s.0, (a: nat) => a, (w: nat) => w, (insn: nat, s: (nat, nat)) => (s.0, insn))

  const QUIET: Round<(nat, nat)> := Round((s: (nat, nat)) => None, (s: (nat, nat)) => s, (s: (nat, nat)) => true)

  /** The debugger moves the pc to 1 after the fetch. */
  const MOVED: Round<(nat, nat)> := Round((s: (nat, nat)) => None, (s: (nat, nat)) => (1, s.1), (s: (nat, nat)) => true)

  /** One such move spoils a later round that nothing disturbs: the word at 1 is not executed, the one at 0 is again. */
  method Poisoned() returns (cpu: Cpu<(nat, nat), nat>)
    ensures cpu.state == (1, 0) && PlainRun(WAITING, (0, 9), [MOVED, QUIET]) == (1, 1)
    ensures Steady(WAITING, PlainRun(WAITING, (0, 9), [MOVED]), QUIET)
  {
    cpu := new Cpu(WAITING, (0, 9));
    cpu.Step(MOVED);
    cpu.Step(QUIET);
    assert [MOVED, QUIET][..1] == [MOVED] && [MOVED][..0] == [];
  }

  /** The bytes of `(datah << 16) | (datal >> 16)` */
  lemma Straddle(low: bv32, high: bv32)
    ensures var w := Split((high << 16) | (low >> 16));
            w == Word(Split(low).b2, Split(low).b3, Split(high).b0, Split(high).b1)
  {
  }

  lemma JoinHalves(low: Word, high: Word)
    ensures Split((high.Value() << 16) | (low.Value() >> 16)) == Word(low.b2, low.b3, high.b0, high.b1)
  {
    hide Word.Value, Split;
    Straddle(low.Value(), high.Value());
    SplitValue(low);
    SplitValue(high);
  }

  lemma EvenAddress(addr: nat)
    requires addr % 2 == 0
    ensures if addr / 2 % 2 == 1 then addr % 4 == 2 else addr % 4 == 0
  {
  }

  /** A word that straddles two aligned ones. */
  lemma LoadHalves(m: Memory, addr: nat)
    requires addr % 4 == 2 && addr + 4 <= SIZE
    ensures addr + 6 <= SIZE && AlignDown(addr, 4) == addr - 2 && (addr - 2) % 4 == 0 && (addr + 2) % 4 == 0
    ensures var low, high := Load(m, addr - 2, WordType), Load(m, addr + 2, WordType);
            Load(m, addr, WordType) == Word(low.b2, low.b3, high.b0, high.b1)
  {
  }

  /** rd_l_unaligned: a word at an even address, from one or two aligned words. */
  method ReadUnaligned(bus: Bus, addr: nat) returns (data: Word)
    requires addr % 2 == 0 && addr + 4 <= SIZE
    ensures data == Load(bus.mem, addr, WordType)
  {
    EvenAddress(addr);
    if addr / 2 % 2 == 1 {
      data := ReadStraddling(bus, addr);
    } else {
      hide Load;
      data := bus.Read(addr, WordType);
    }
  }

  method ReadStraddling(bus: Bus, addr: nat) returns (data: Word)
    requires addr % 4 == 2 && addr + 4 <= SIZE
    ensures data == Load(bus.mem, addr, WordType)
  {
    hide Load, Word.Value, Split, AlignDown;
    LoadHalves(bus.mem, addr);
    var addrm := AlignDown(addr, 4);
    var datal := bus.Read(addrm, WordType);
    var datah := bus.Read(addrm + 4, WordType);
    data := Split((datah.Value() << 16) | (datal.Value() >> 16));
    JoinHalves(datal, datah);
  }
}
