/**
 * The genetic algorithm over timetables: individuals, one-point crossover,
 * mutation, tournament selection, population evaluation, elitist
 * generations and the run statistics. Every random draw is a parameter;
 * a draw function `d: nat -> X` supplies the draw for the n-th use.
 */
module Genetic {
  import opened Util
  import opened Sorting
  import opened Records
  import opened TimeSlots
  import Dict
  import Constraints

  type Gene = Constraints.Gene
  type Genes = Constraints.Genes

  /** `Individual`: its genes and its last computed fitness. */
  datatype Individual = Individual(genes: Genes, fitness: real)

  /** What every individual shares: the classes, the rooms and each class's allowed slots. */
  datatype Context = Context(classes: seq<Class>, rooms: seq<Room>, slots: map<int, seq<TimeSlot>>)

  datatype Params = Params(
    populationSize: nat,
    generations: nat,
    mutationRate: real,
    crossoverRate: real,
    elitismSize: nat,
    tournamentSize: nat)

  const DefaultParams := Params(100, 200, 0.15, 0.80, 10, 5)

  /** `individual.time_slots.get(class_id, [])`. */
  function SlotsOf(ctx: Context, c: int): seq<TimeSlot> {
    if c in ctx.slots then ctx.slots[c] else []
  }

  /** `next((c for c in classes if c.id == class_id), None)`. */
  function FindClass(classes: seq<Class>, id: int): (r: Option<Class>)
    ensures r.Some? ==> r.value in classes && r.value.id == id
    ensures r.None? <==> forall i :: 0 <= i < |classes| ==> classes[i].id != id
  {
    if |classes| == 0 then None else if classes[0].id == id then Some(classes[0]) else FindClass(classes[1..], id)
  }

  /** The suitable rooms, or every room when none is large enough. */
  function SuitableOrAll(rooms: seq<Room>, limit: int): (r: seq<Room>)
    ensures forall x :: x in r ==> x in rooms
    ensures (exists x :: x in rooms && x.capacity >= limit) ==> forall x :: x in r ==> x.capacity >= limit
    ensures |rooms| > 0 ==> |r| > 0
  {
    var s := Suitable(rooms, limit);
    if |s| == 0 then rooms else s
  }

  function Distance(limit: int): Room -> int {
    (r: Room) => if r.capacity >= limit then r.capacity - limit else limit - r.capacity
  }

  /** `rooms.sort(key=lambda r: abs(r.capacity - limit)); rooms[0]`. */
  function Nearest(rooms: seq<Room>, limit: int): Room
    requires |rooms| > 0
  {
    Sort(rooms, ByKey(Distance(limit)))[0]
  }

  /** The nearest room is the earliest of those whose seat count is closest to the limit. */
  lemma NearestFacts(rooms: seq<Room>, limit: int)
    requires |rooms| > 0
    ensures exists k :: 0 <= k < |rooms| && Nearest(rooms, limit) == rooms[k] &&
              (forall j :: 0 <= j < |rooms| ==> Distance(limit)(rooms[k]) <= Distance(limit)(rooms[j])) &&
              (forall q :: 0 <= q < k ==> Distance(limit)(rooms[q]) > Distance(limit)(rooms[k]))
  {
    ByKeyPreorder(Distance(limit));
    SortHead(rooms, ByKey(Distance(limit)));
  }

  lemma NearestIn(rooms: seq<Room>, limit: int)
    requires |rooms| > 0
    ensures Nearest(rooms, limit) in rooms
  {
    NearestFacts(rooms, limit);
  }

  // ------------------------------------------------------------ crossover

  /** Copies, key by key in `ks`, `from2`'s value into `g1` and `from1`'s into `g2`; a key missing from either source raises. */
  function Cross(g1: Genes, g2: Genes, ks: seq<int>, from1: Genes, from2: Genes): Option<(Genes, Genes)>
    decreases |ks|
  {
    if |ks| == 0 then Some((g1, g2))
    else
      match (Dict.Get(from2, ks[0]), Dict.Get(from1, ks[0]))
      case (Some(v2), Some(v1)) => Cross(Dict.Put(g1, ks[0], v2), Dict.Put(g2, ks[0], v1), ks[1..], from1, from2)
      case _ => None
  }

  lemma {:induction false} CrossFacts(g1: Genes, g2: Genes, ks: seq<int>, from1: Genes, from2: Genes)
    ensures Cross(g1, g2, ks, from1, from2).Some? <==>
              forall k :: k in ks ==> k in Dict.Keys(from1) && k in Dict.Keys(from2)
    ensures Cross(g1, g2, ks, from1, from2).Some? ==>
              var r := Cross(g1, g2, ks, from1, from2).value;
              (forall k :: Dict.Get(r.0, k) == if k in ks then Dict.Get(from2, k) else Dict.Get(g1, k)) &&
              (forall k :: Dict.Get(r.1, k) == if k in ks then Dict.Get(from1, k) else Dict.Get(g2, k)) &&
              ((forall k :: k in ks ==> k in Dict.Keys(g1)) ==> Dict.Keys(r.0) == Dict.Keys(g1)) &&
              ((forall k :: k in ks ==> k in Dict.Keys(g2)) ==> Dict.Keys(r.1) == Dict.Keys(g2))
    decreases |ks|
  {
    if |ks| > 0 {
      var k := ks[0];
      assert forall x :: x in ks <==> x == k || x in ks[1..];
      if Dict.Get(from2, k).Some? && Dict.Get(from1, k).Some? {
        var v2, v1 := Dict.Get(from2, k).value, Dict.Get(from1, k).value;
        Dict.PutFacts(g1, k, v2);
        Dict.PutFacts(g2, k, v1);
        CrossFacts(Dict.Put(g1, k, v2), Dict.Put(g2, k, v1), ks[1..], from1, from2);
        if k in Dict.Keys(g1) {
          assert forall x :: x in Dict.Keys(Dict.Put(g1, k, v2)) <==> x in Dict.Keys(g1);
        }
        if k in Dict.Keys(g2) {
          assert forall x :: x in Dict.Keys(Dict.Put(g2, k, v1)) <==> x in Dict.Keys(g2);
        }
      } else {
        assert Cross(g1, g2, ks, from1, from2) == None;
        assert k !in Dict.Keys(from1) || k !in Dict.Keys(from2);
      }
    }
  }

  /** `random.randint(1, n - 1)` from a draw. */
  function CrossoverPoint(n: nat, draw: nat): (p: nat)
    requires n > 1
    ensures 1 <= p <= n - 1
  {
    1 + draw % (n - 1)
  }

  /** `crossover`: one-point crossover over the first parent's key order, or clones when the roll exceeds the rate. */
  function Crossover(p1: Individual, p2: Individual, roll: real, rate: real, pointDraw: nat): Option<(Individual, Individual)>
  {
    var ks := Dict.Keys(p1.genes);
    if roll > rate || |ks| <= 1 then Some((p1, p2))
    else
      match Cross(p1.genes, p2.genes, ks[CrossoverPoint(|ks|, pointDraw)..], p1.genes, p2.genes)
      case None => None
      case Some(children) => Some((Individual(children.0, p1.fitness), Individual(children.1, p2.fitness)))
  }

  /** Two individuals over the same classes. */
  predicate SameClasses(a: Individual, b: Individual) {
    (forall k :: k in Dict.Keys(a.genes) ==> k in Dict.Keys(b.genes)) &&
    (forall k :: k in Dict.Keys(b.genes) ==> k in Dict.Keys(a.genes))
  }

  lemma DistinctSuffix(ks: seq<int>, p: nat, i: nat)
    requires p <= |ks| && i < |ks|
    requires forall x, y :: 0 <= x < y < |ks| ==> ks[x] != ks[y]
    ensures ks[i] in ks[p..] <==> i >= p
  {
    if ks[i] in ks[p..] {
      var j :| 0 <= j < |ks[p..]| && ks[p..][j] == ks[i];
      assert ks[p + j] == ks[i];
    }
    if i >= p {
      assert ks[p..][i - p] == ks[i];
    }
  }

  /**
   * Above the rate the children are the parents themselves; for parents
   * over the same classes crossover always succeeds. When parent 2 lacks one
   * of parent 1's classes from the point on, indexing raises.
   */
  lemma CrossoverDefined(p1: Individual, p2: Individual, roll: real, rate: real, pointDraw: nat)
    requires Dict.Distinct(p1.genes) && Dict.Distinct(p2.genes)
    ensures roll > rate ==> Crossover(p1, p2, roll, rate, pointDraw) == Some((p1, p2))
    ensures SameClasses(p1, p2) ==> Crossover(p1, p2, roll, rate, pointDraw).Some?
  {
    var ks := Dict.Keys(p1.genes);
    if roll <= rate && |ks| > 1 {
      var point := CrossoverPoint(|ks|, pointDraw);
      CrossFacts(p1.genes, p2.genes, ks[point..], p1.genes, p2.genes);
    }
  }

  /**
   * For parents over the same classes, child 1 keeps parent 1's key order
   * with parent 1's genes before the point and parent 2's from it on, and
   * child 2 is the mirror image in parent 2's key order.
   */
  lemma CrossoverGenes(p1: Individual, p2: Individual, roll: real, rate: real, pointDraw: nat)
    requires Dict.Distinct(p1.genes) && Dict.Distinct(p2.genes)
    requires SameClasses(p1, p2) && roll <= rate && |p1.genes| > 1
    ensures var ks := Dict.Keys(p1.genes);
              var point := CrossoverPoint(|ks|, pointDraw);
              var c := Crossover(p1, p2, roll, rate, pointDraw);
              c.Some? && Dict.Keys(c.value.0.genes) == ks && Dict.Keys(c.value.1.genes) == Dict.Keys(p2.genes) &&
              OnePointMix(ks, point, p1.genes, p2.genes, c.value.0.genes, c.value.1.genes)
  {
    var ks := Dict.Keys(p1.genes);
    var point := CrossoverPoint(|ks|, pointDraw);
    var tail := ks[point..];
    SuffixShared(p1, p2, point);
    CrossFacts(p1.genes, p2.genes, tail, p1.genes, p2.genes);
    var r := Cross(p1.genes, p2.genes, tail, p1.genes, p2.genes).value;
    assert Crossover(p1, p2, roll, rate, pointDraw) == Some((Individual(r.0, p1.fitness), Individual(r.1, p2.fitness)));
    SplitAtPoint(ks, point, p1.genes, p2.genes, r.0, r.1);
  }

  /**
   * Children `c1` and `c2` of a one-point crossover at `point` over the key
   * order `ks`: before the point each child has its own parent's gene, from
   * the point on the other parent's.
   */
  predicate OnePointMix(ks: seq<int>, point: nat, g1: Genes, g2: Genes, c1: Genes, c2: Genes) {
    forall i :: 0 <= i < |ks| ==>
      Dict.Get(c1, ks[i]) == (if i < point then Dict.Get(g1, ks[i]) else Dict.Get(g2, ks[i])) &&
      Dict.Get(c2, ks[i]) == (if i < point then Dict.Get(g2, ks[i]) else Dict.Get(g1, ks[i]))
  }

  /** Genes taken from the suffix of a distinct key list from `point` on come from the second source exactly at positions `point` and after. */
  lemma SplitAtPoint(ks: seq<int>, point: nat, g1: Genes, g2: Genes, c1: Genes, c2: Genes)
    requires point <= |ks|
    requires forall x, y :: 0 <= x < y < |ks| ==> ks[x] != ks[y]
    requires forall k :: Dict.Get(c1, k) == if k in ks[point..] then Dict.Get(g2, k) else Dict.Get(g1, k)
    requires forall k :: Dict.Get(c2, k) == if k in ks[point..] then Dict.Get(g1, k) else Dict.Get(g2, k)
    ensures OnePointMix(ks, point, g1, g2, c1, c2)
  {
    forall i | 0 <= i < |ks|
      ensures Dict.Get(c1, ks[i]) == (if i < point then Dict.Get(g1, ks[i]) else Dict.Get(g2, ks[i]))
      ensures Dict.Get(c2, ks[i]) == (if i < point then Dict.Get(g2, ks[i]) else Dict.Get(g1, ks[i]))
    {
      DistinctSuffix(ks, point, i);
      assert Dict.Get(c1, ks[i]) == if ks[i] in ks[point..] then Dict.Get(g2, ks[i]) else Dict.Get(g1, ks[i]);
      assert Dict.Get(c2, ks[i]) == if ks[i] in ks[point..] then Dict.Get(g1, ks[i]) else Dict.Get(g2, ks[i]);
    }
  }

  /** For parents over the same classes, every class from the point on belongs to both. */
  lemma SuffixShared(p1: Individual, p2: Individual, point: nat)
    requires SameClasses(p1, p2) && point <= |p1.genes|
    ensures forall k :: k in Dict.Keys(p1.genes)[point..] ==> k in Dict.Keys(p1.genes) && k in Dict.Keys(p2.genes)
  {
    var ks := Dict.Keys(p1.genes);
    forall k | k in ks[point..] ensures k in ks && k in Dict.Keys(p2.genes) {
      var j :| 0 <= j < |ks[point..]| && ks[point..][j] == k;
      assert ks[point + j] == k;
    }
  }

  // ------------------------------------------------------------- mutation

  /** The draws `mutate` makes for one gene: the rate roll, the kind, the 70% roll and two choices. */
  datatype MutationDraw = MutationDraw(roll: real, kind: nat, nearRoll: real, roomPick: nat, timePick: nat)

  const NearestShare: real := 0.7

  /** One gene of `mutate`; `None` is `random.choice` raising on an empty room list. */
  function MutateGene(ctx: Context, cid: int, g: Gene, rate: real, d: MutationDraw): Option<Gene>
  {
    if !(d.roll < rate) then Some(g)
    else
      var room := RoomChoice(ctx, cid, g, d);
      if room.None? then None else Some(Constraints.Gene(room.value, SlotChoice(ctx, cid, g, d)))
  }

  /** The room part of a mutation: kinds 0 and 2 of a known class pick a room; `None` when there is none to pick. */
  function RoomChoice(ctx: Context, cid: int, g: Gene, d: MutationDraw): Option<Option<int>> {
    var kind := d.kind % 3;
    var cls := FindClass(ctx.classes, cid);
    if (kind == 0 || kind == 2) && cls.Some? then
      var suitable := SuitableOrAll(ctx.rooms, cls.value.limit);
      if d.nearRoll < NearestShare && |suitable| > 0 then Some(Some(Nearest(suitable, cls.value.limit).id))
      else if |ctx.rooms| == 0 then None
      else Some(Some(ctx.rooms[d.roomPick % |ctx.rooms|].id))
    else Some(g.room)
  }

  /** The slot part of a mutation: kinds 1 and 2 pick one of the class's slots, when it has any. */
  function SlotChoice(ctx: Context, cid: int, g: Gene, d: MutationDraw): Option<int> {
    var kind := d.kind % 3;
    var slots := if FindClass(ctx.classes, cid).Some? then SlotsOf(ctx, cid) else [];
    if (kind == 1 || kind == 2) && |slots| > 0 then Some(slots[d.timePick % |slots|].id) else g.slot
  }

  /** The genes from position `pos` on, each through `f` with its position; the first failure fails the whole. */
  function MapGenes(gs: Genes, f: (int, Gene, nat) -> Option<Gene>, pos: nat): (r: Option<Genes>)
    ensures r.Some? ==> |r.value| == |gs|
    decreases |gs|
  {
    if |gs| == 0 then Some([])
    else
      match f(gs[0].0, gs[0].1, pos)
      case None => None
      case Some(g) =>
        match MapGenes(gs[1..], f, pos + 1)
        case None => None
        case Some(rest) => Some([(gs[0].0, g)] + rest)
  }

  /** Gene number k is mutated with the k-th draw. */
  function Mutator(ctx: Context, rate: real, draws: nat -> MutationDraw): (int, Gene, nat) -> Option<Gene> {
    (cid: int, g: Gene, k: nat) => MutateGene(ctx, cid, g, rate, draws(k))
  }

  /** The genes from position `pos` on, each with its own draw. */
  function MutateFrom(ctx: Context, gs: Genes, rate: real, draws: nat -> MutationDraw, pos: nat): (r: Option<Genes>)
  {
    MapGenes(gs, Mutator(ctx, rate, draws), pos)
  }

  /** Mapping succeeds exactly when every gene does, and keeps each class with its mapped gene. */
  lemma {:induction false} MapGenesFacts(gs: Genes, f: (int, Gene, nat) -> Option<Gene>, pos: nat)
    ensures MapGenes(gs, f, pos).Some? <==> forall i :: 0 <= i < |gs| ==> f(gs[i].0, gs[i].1, pos + i).Some?
    ensures MapGenes(gs, f, pos).Some? ==>
              forall i :: 0 <= i < |gs| ==> MapGenes(gs, f, pos).value[i] == (gs[i].0, f(gs[i].0, gs[i].1, pos + i).value)
    decreases |gs|
  {
    if |gs| > 0 {
      MapGenesFacts(gs[1..], f, pos + 1);
      assert forall i :: 1 <= i < |gs| ==> gs[i] == gs[1..][i - 1] && pos + i == (pos + 1) + (i - 1);
    }
  }

  /** `mutate`; the fitness is left as it was. */
  function Mutate(ctx: Context, x: Individual, rate: real, draws: nat -> MutationDraw): Option<Individual> {
    match MutateFrom(ctx, x.genes, rate, draws, 0)
    case None => None
    case Some(gs) => Some(Individual(gs, x.fitness))
  }

  /** A gene's mutation: untouched unless the roll is under the rate; a new slot comes from the class's own slots and a new room from the rooms. */
  predicate MutatedWell(ctx: Context, cid: int, before: Gene, after: Gene, rate: real, d: MutationDraw) {
    (!(d.roll < rate) ==> after == before) &&
    (after.slot == before.slot || exists ts :: ts in SlotsOf(ctx, cid) && after.slot == Some(ts.id)) &&
    (after.room == before.room || exists rm :: rm in ctx.rooms && after.room == Some(rm.id))
  }

  /** A room is picked whenever the context has rooms, and it is the gene's own or one of the context's. */
  lemma RoomChoiceFacts(ctx: Context, cid: int, g: Gene, d: MutationDraw)
    ensures |ctx.rooms| > 0 ==> RoomChoice(ctx, cid, g, d).Some?
    ensures RoomChoice(ctx, cid, g, d).Some? ==>
              RoomChoice(ctx, cid, g, d).value == g.room || exists rm :: rm in ctx.rooms && RoomChoice(ctx, cid, g, d).value == Some(rm.id)
  {
    var cls := FindClass(ctx.classes, cid);
    if cls.Some? {
      var suitable := SuitableOrAll(ctx.rooms, cls.value.limit);
      if |suitable| > 0 {
        NearestIn(suitable, cls.value.limit);
      }
      if |ctx.rooms| > 0 {
        assert ctx.rooms[d.roomPick % |ctx.rooms|] in ctx.rooms;
      }
    }
  }

  /** The slot is the gene's own or one of the class's. */
  lemma SlotChoiceFacts(ctx: Context, cid: int, g: Gene, d: MutationDraw)
    ensures SlotChoice(ctx, cid, g, d) == g.slot || exists ts :: ts in SlotsOf(ctx, cid) && SlotChoice(ctx, cid, g, d) == Some(ts.id)
  {
    if FindClass(ctx.classes, cid).Some? {
      var slots := SlotsOf(ctx, cid);
      if |slots| > 0 {
        assert slots[d.timePick % |slots|] in slots;
      }
    }
  }

  lemma MutateGeneFacts(ctx: Context, cid: int, g: Gene, rate: real, d: MutationDraw)
    ensures |ctx.rooms| > 0 ==> MutateGene(ctx, cid, g, rate, d).Some?
    ensures MutateGene(ctx, cid, g, rate, d).Some? ==> MutatedWell(ctx, cid, g, MutateGene(ctx, cid, g, rate, d).value, rate, d)
  {
    RoomChoiceFacts(ctx, cid, g, d);
    SlotChoiceFacts(ctx, cid, g, d);
  }

  lemma MutateFromFacts(ctx: Context, gs: Genes, rate: real, draws: nat -> MutationDraw, pos: nat)
    ensures |ctx.rooms| > 0 ==> MutateFrom(ctx, gs, rate, draws, pos).Some?
    ensures MutateFrom(ctx, gs, rate, draws, pos).Some? ==>
              var r := MutateFrom(ctx, gs, rate, draws, pos).value;
              forall i :: 0 <= i < |gs| ==> r[i].0 == gs[i].0 && MutatedWell(ctx, gs[i].0, gs[i].1, r[i].1, rate, draws(pos + i))
  {
    var f := Mutator(ctx, rate, draws);
    MapGenesFacts(gs, f, pos);
    forall i | 0 <= i < |gs| ensures
      (|ctx.rooms| > 0 ==> f(gs[i].0, gs[i].1, pos + i).Some?) &&
      (f(gs[i].0, gs[i].1, pos + i).Some? ==>
         MutatedWell(ctx, gs[i].0, gs[i].1, f(gs[i].0, gs[i].1, pos + i).value, rate, draws(pos + i)))
    {
      MutateGeneFacts(ctx, gs[i].0, gs[i].1, rate, draws(pos + i));
    }
  }

  /**
   * `mutate` keeps the classes and their order and the fitness; each gene
   * changes only when its roll is under the rate, to a slot of that class's
   * own list and a room of the room list. It raises only when there are no
   * rooms.
   */
  lemma MutateFacts(ctx: Context, x: Individual, rate: real, draws: nat -> MutationDraw)
    ensures |ctx.rooms| > 0 ==> Mutate(ctx, x, rate, draws).Some?
    ensures Mutate(ctx, x, rate, draws).Some? ==>
              var y := Mutate(ctx, x, rate, draws).value;
              Dict.Keys(y.genes) == Dict.Keys(x.genes) && y.fitness == x.fitness &&
              forall i :: 0 <= i < |x.genes| ==> MutatedWell(ctx, x.genes[i].0, x.genes[i].1, y.genes[i].1, rate, draws(i))
  {
    MutateFromFacts(ctx, x.genes, rate, draws, 0);
  }

  // ------------------------------------------------------------ selection

  /** `max(s, key=fitness)`: the first individual of greatest fitness. */
  function FirstMax(s: seq<Individual>): (r: Individual)
    requires |s| > 0
    ensures r in s && forall j :: 0 <= j < |s| ==> s[j].fitness <= r.fitness
  {
    if |s| == 1 then s[0]
    else
      var m := FirstMax(s[1..]);
      if m.fitness > s[0].fitness then m else s[0]
  }

  lemma {:induction false} FirstMaxEarliest(s: seq<Individual>) returns (k: nat)
    requires |s| > 0
    ensures k < |s| && s[k] == FirstMax(s) && forall q :: 0 <= q < k ==> s[q].fitness < s[k].fitness
  {
    if |s| == 1 {
      k := 0;
    } else {
      var m := FirstMax(s[1..]);
      if m.fitness > s[0].fitness {
        var k' := FirstMaxEarliest(s[1..]);
        k := k' + 1;
        forall q | 0 <= q < k ensures s[q].fitness < s[k].fitness {
          if q > 0 {
            assert s[q] == s[1..][q - 1];
          }
        }
      } else {
        k := 0;
      }
    }
  }

  /**
   * The tournament's entrants: the sampled positions of the population. The
   * positions may repeat here, while `random.sample` draws distinct ones, so
   * the facts proved about the tournament cover the source's draws as well.
   */
  function Entrants(pop: seq<Individual>, size: nat, sample: nat -> nat): (r: seq<Individual>)
    requires |pop| > 0
    ensures |r| == size && forall j :: 0 <= j < size ==> r[j] == pop[sample(j) % |pop|]
  {
    seq(size, (j: int) requires 0 <= j => pop[sample(j) % |pop|])
  }

  /** `tournament_selection`; `None` when `random.sample` or `max` raises (size above the population, or zero). */
  function Tournament(pop: seq<Individual>, size: nat, sample: nat -> nat): Option<Individual> {
    if size == 0 || size > |pop| then None else Some(FirstMax(Entrants(pop, size, sample)))
  }

  /** The winner is an entrant of greatest fitness, and every entrant drawn before it is strictly worse. */
  lemma TournamentFacts(pop: seq<Individual>, size: nat, sample: nat -> nat)
    ensures Tournament(pop, size, sample).None? <==> size == 0 || size > |pop|
    ensures Tournament(pop, size, sample).Some? ==>
              var w := Tournament(pop, size, sample).value;
              w in pop &&
              (forall j :: 0 <= j < size ==> pop[sample(j) % |pop|].fitness <= w.fitness) &&
              exists k :: 0 <= k < size && w == pop[sample(k) % |pop|] &&
                forall q :: 0 <= q < k ==> pop[sample(q) % |pop|].fitness < w.fitness
  {
    if 0 < size <= |pop| {
      var e := Entrants(pop, size, sample);
      var k := FirstMaxEarliest(e);
      assert e[k] == pop[sample(k) % |pop|];
    }
  }

  // ------------------------------------------------------------ evolution

  /** The algorithm's state: the population, the best individual so far and the two fitness histories. */
  datatype Evolution = Evolution(population: seq<Individual>, best: Option<Individual>, bestHistory: seq<real>, avgHistory: seq<real>)

  function FitnessOf(x: Individual): real {
    x.fitness
  }

  /** `validator.evaluate` as the fitness function the algorithm is run with. */
  function ValidatorFitness(v: Constraints.Validator): Genes -> real {
    (g: Genes) => Constraints.Evaluate(v, g)
  }

  /** `calculate_fitness` on every individual. */
  function Rescore(fit: Genes -> real, pop: seq<Individual>): (r: seq<Individual>)
    ensures |r| == |pop| && forall i :: 0 <= i < |pop| ==> r[i] == Individual(pop[i].genes, fit(pop[i].genes))
  {
    seq(|pop|, (i: int) requires 0 <= i < |pop| => Individual(pop[i].genes, fit(pop[i].genes)))
  }

  function SumFitness(pop: seq<Individual>): real {
    if |pop| == 0 then 0.0 else SumFitness(pop[..|pop| - 1]) + pop[|pop| - 1].fitness
  }

  /** Every stored fitness is the validator's score of the genes. */
  predicate Fresh(fit: Genes -> real, pop: seq<Individual>) {
    forall i :: 0 <= i < |pop| ==> pop[i].fitness == fit(pop[i].genes)
  }

  /** `evaluate_population`; `None` for an empty population, where `population[0]` raises. */
  function EvaluatePopulation(st: Evolution, fit: Genes -> real): Option<Evolution> {
    if |st.population| == 0 then None else Some(Evaluation(st, fit))
  }

  lemma RankedFresh(fit: Genes -> real, pop: seq<Individual>)
    ensures var ranked := Sort(Rescore(fit, pop), ByRealKeyDesc(FitnessOf));
      multiset(ranked) == multiset(Rescore(fit, pop)) && SortedBy(ranked, ByRealKeyDesc(FitnessOf)) && Fresh(fit, ranked)
  {
    var rs := Rescore(fit, pop);
    var ranked := Sort(rs, ByRealKeyDesc(FitnessOf));
    ByRealKeyDescPreorder(FitnessOf);
    SortCorrect(rs, ByRealKeyDesc(FitnessOf));
    forall i | 0 <= i < |ranked| ensures ranked[i].fitness == fit(ranked[i].genes) {
      assert ranked[i] in multiset(rs);
      var j :| 0 <= j < |rs| && rs[j] == ranked[i];
    }
  }

  /** The state `evaluate_population` produces from a non-empty population. */
  function Evaluation(st: Evolution, fit: Genes -> real): Evolution
    requires |st.population| > 0
  {
    var ranked := Sort(Rescore(fit, st.population), ByRealKeyDesc(FitnessOf));
    var top := ranked[0];
    var best := if st.best.None? || top.fitness > st.best.value.fitness then Some(top) else st.best;
    Evolution(ranked, best, st.bestHistory + [top.fitness], st.avgHistory + [SumFitness(ranked) / |ranked| as real])
  }

  lemma TopIsMax(s: seq<Individual>)
    requires |s| > 0 && SortedBy(s, ByRealKeyDesc(FitnessOf))
    ensures forall i :: 0 <= i < |s| ==> s[i].fitness <= s[0].fitness
  {
    forall i | 0 < i < |s| ensures s[i].fitness <= s[0].fitness {
      assert ByRealKeyDesc(FitnessOf)(s[0], s[i]);
      assert ByRealKeyDesc(FitnessOf)(s[0], s[i]) == (FitnessOf(s[0]) >= FitnessOf(s[i]));
    }
  }

  /**
   * Evaluation rescores every individual, ranks the population by
   * descending fitness (a permutation of the rescored one), appends the top
   * fitness and the mean to the histories, and the best individual so far
   * never gets worse and is at least as good as everyone now in the
   * population.
   */
  lemma EvaluateFacts(st: Evolution, fit: Genes -> real)
    ensures EvaluatePopulation(st, fit).None? <==> |st.population| == 0
    ensures EvaluatePopulation(st, fit).Some? ==>
              var n := EvaluatePopulation(st, fit).value;
              |n.population| == |st.population| &&
              multiset(n.population) == multiset(Rescore(fit, st.population)) &&
              SortedBy(n.population, ByRealKeyDesc(FitnessOf)) && Fresh(fit, n.population) &&
              n.best.Some? && (n.best == st.best || n.best == Some(n.population[0])) &&
              (forall i :: 0 <= i < |n.population| ==> n.population[i].fitness <= n.best.value.fitness) &&
              (st.best.Some? ==> st.best.value.fitness <= n.best.value.fitness) &&
              n.bestHistory == st.bestHistory + [n.population[0].fitness] &&
              n.avgHistory == st.avgHistory + [SumFitness(n.population) / |n.population| as real]
  {
    if |st.population| > 0 {
      RankedFresh(fit, st.population);
      var n := Evaluation(st, fit);
      assert EvaluatePopulation(st, fit) == Some(n);
      TopIsMax(n.population);
    }
  }

  /** The draws one pass of the generation loop consumes. */
  datatype BreedDraws = BreedDraws(
    sample1: nat -> nat,
    sample2: nat -> nat,
    crossRoll: real,
    pointDraw: nat,
    mutation1: nat -> MutationDraw,
    mutation2: nat -> MutationDraw)

  /** Two tournaments, a crossover and the two mutations. */
  function Breed(ctx: Context, p: Params, pop: seq<Individual>, d: BreedDraws): Option<(Individual, Individual)> {
    match (Tournament(pop, p.tournamentSize, d.sample1), Tournament(pop, p.tournamentSize, d.sample2))
    case (Some(a), Some(b)) =>
      (match Crossover(a, b, d.crossRoll, p.crossoverRate, d.pointDraw)
       case None => None
       case Some(children) =>
         match (Mutate(ctx, children.0, p.mutationRate, d.mutation1), Mutate(ctx, children.1, p.mutationRate, d.mutation2))
         case (Some(c1), Some(c2)) => Some((c1, c2))
         case _ => None)
    case _ => None
  }

  /**
   * The `while len(new_population) < population_size` loop: the first child
   * always, the second if there is room; `breed(k)` is the k-th pass's two
   * tournaments, crossover and mutations.
   */
  function Fill(p: Params, breed: nat -> Option<(Individual, Individual)>, acc: seq<Individual>, k: nat)
    : Option<seq<Individual>>
    decreases p.populationSize - |acc|
  {
    if |acc| >= p.populationSize then Some(acc)
    else
      match breed(k)
      case None => None
      case Some(children) =>
        var one := acc + [children.0];
        Fill(p, breed, if |one| < p.populationSize then one + [children.1] else one, k + 1)
  }

  /** The k-th pass breeds from the k-th draws. */
  function Breeder(ctx: Context, p: Params, pop: seq<Individual>, draws: nat -> BreedDraws): nat -> Option<(Individual, Individual)> {
    (k: nat) => Breed(ctx, p, pop, draws(k))
  }

  /** `population[:elitism_size]`. */
  function Elite(p: Params, pop: seq<Individual>): (r: seq<Individual>)
    ensures |r| == Min(p.elitismSize, |pop|)
  {
    pop[..Min(p.elitismSize, |pop|)]
  }

  /** The body of one generation of `evolve`, before its evaluation. */
  function NextGeneration(ctx: Context, p: Params, pop: seq<Individual>, draws: nat -> BreedDraws): Option<seq<Individual>> {
    Fill(p, Breeder(ctx, p, pop, draws), Elite(p, pop), 0)
  }

  /** The loop only appends: it ends at `population_size` members, or as it began when already that full. */
  lemma {:induction false} FillFacts(p: Params, breed: nat -> Option<(Individual, Individual)>, acc: seq<Individual>, k: nat)
    ensures Fill(p, breed, acc, k).Some? ==>
              var r := Fill(p, breed, acc, k).value;
              |r| == Max(p.populationSize, |acc|) && r[..|acc|] == acc
    decreases p.populationSize - |acc|
  {
    if |acc| < p.populationSize {
      var b := breed(k);
      if b.Some? {
        var one := acc + [b.value.0];
        var next := if |one| < p.populationSize then one + [b.value.1] else one;
        FillFacts(p, breed, next, k + 1);
        var r := Fill(p, breed, acc, k);
        if r.Some? {
          assert r.value[..|next|][..|acc|] == next[..|acc|];
        }
      }
    }
  }

  /**
   * A generation keeps the elite as its first members, unchanged, and fills
   * up to `population_size`: from a full population the new one has exactly
   * `population_size` members.
   */
  lemma GenerationFacts(ctx: Context, p: Params, pop: seq<Individual>, draws: nat -> BreedDraws)
    ensures NextGeneration(ctx, p, pop, draws).Some? ==>
              var r := NextGeneration(ctx, p, pop, draws).value;
              var e := Min(p.elitismSize, |pop|);
              |r| == Max(p.populationSize, e) && r[..e] == pop[..e] &&
              (|pop| == p.populationSize ==> |r| == p.populationSize)
  {
    FillFacts(p, Breeder(ctx, p, pop, draws), Elite(p, pop), 0);
  }

  /** `evolve` after `n` generations: the initial evaluation, then generation and evaluation `n` times. */
  function Evolve(ctx: Context, p: Params, fit: Genes -> real, initial: seq<Individual>, draws: nat -> nat -> BreedDraws, n: nat)
    : Option<Evolution>
  {
    if n == 0 then EvaluatePopulation(Evolution(initial, None, [], []), fit)
    else
      match Evolve(ctx, p, fit, initial, draws, n - 1)
      case None => None
      case Some(st) => Advance(ctx, p, fit, st, draws(n - 1))
  }

  /** One generation of `evolve` followed by its evaluation. */
  function Advance(ctx: Context, p: Params, fit: Genes -> real, st: Evolution, draws: nat -> BreedDraws): Option<Evolution> {
    match NextGeneration(ctx, p, st.population, draws)
    case None => None
    case Some(pop) => EvaluatePopulation(st.(population := pop), fit)
  }

  predicate NonDecreasing(s: seq<real>) {
    forall i, j :: 0 <= i < j < |s| ==> s[i] <= s[j]
  }

  function Last(s: seq<real>): real
    requires |s| > 0
  {
    s[|s| - 1]
  }

  /** What holds after every evaluation of a run. */
  predicate Evaluated(fit: Genes -> real, st: Evolution) {
    |st.population| > 0 && |st.bestHistory| > 0 && Fresh(fit, st.population) &&
    SortedBy(st.population, ByRealKeyDesc(FitnessOf)) &&
    st.population[0].fitness == Last(st.bestHistory) &&
    st.best.Some? && forall i :: 0 <= i < |st.bestHistory| ==> st.bestHistory[i] <= st.best.value.fitness
  }

  /** With an elite, the next evaluation's top fitness is at least the current one, because the elite's best is rescored unchanged. */
  lemma EliteKeepsTop(ctx: Context, p: Params, fit: Genes -> real, st: Evolution, draws: nat -> BreedDraws)
    requires Evaluated(fit, st) && p.elitismSize > 0
    requires NextGeneration(ctx, p, st.population, draws).Some?
    ensures var pop := NextGeneration(ctx, p, st.population, draws).value;
      EvaluatePopulation(st.(population := pop), fit).Some? &&
      EvaluatePopulation(st.(population := pop), fit).value.population[0].fitness >= st.population[0].fitness
  {
    var pop := NextGeneration(ctx, p, st.population, draws).value;
    GenerationFacts(ctx, p, st.population, draws);
    assert pop[..1] == st.population[..1];
    assert pop[0] == st.population[0];
    RescoredTop(st.(population := pop), fit, st.population[0]);
  }

  /** A population led by an individual with an up-to-date fitness evaluates to a top at least as fit. */
  lemma RescoredTop(st: Evolution, fit: Genes -> real, x: Individual)
    requires |st.population| > 0 && st.population[0] == x && x.fitness == fit(x.genes)
    ensures EvaluatePopulation(st, fit).Some? && EvaluatePopulation(st, fit).value.population[0].fitness >= x.fitness
  {
    EvaluateFacts(st, fit);
    var n := EvaluatePopulation(st, fit).value;
    assert Rescore(fit, st.population)[0] == x;
    assert x in multiset(n.population);
    var j :| 0 <= j < |n.population| && n.population[j] == x;
    TopIsMax(n.population);
  }

  /** The histories recorded so far never decrease and end at the best individual's fitness. */
  predicate Monotone(st: Evolution)
    requires |st.bestHistory| > 0 && st.best.Some?
  {
    NonDecreasing(st.bestHistory) && st.best.value.fitness == Last(st.bestHistory)
  }

  lemma EvaluatedInitial(fit: Genes -> real, initial: seq<Individual>)
    ensures var r := EvaluatePopulation(Evolution(initial, None, [], []), fit);
      r.Some? ==> Evaluated(fit, r.value) && |r.value.bestHistory| == 1 && |r.value.avgHistory| == 1 && Monotone(r.value)
  {
    EvaluateFacts(Evolution(initial, None, [], []), fit);
  }

  lemma EvaluatedStep(ctx: Context, p: Params, fit: Genes -> real, st: Evolution, draws: nat -> BreedDraws)
    requires Evaluated(fit, st)
    requires Advance(ctx, p, fit, st, draws).Some?
    ensures var nx := Advance(ctx, p, fit, st, draws).value;
      Evaluated(fit, nx) && |nx.bestHistory| == |st.bestHistory| + 1 && |nx.avgHistory| == |st.avgHistory| + 1 &&
      (p.elitismSize > 0 && Monotone(st) ==> Monotone(nx))
  {
    var st' := st.(population := NextGeneration(ctx, p, st.population, draws).value);
    EvaluateFacts(st', fit);
    var nx := EvaluatePopulation(st', fit).value;
    forall i | 0 <= i < |nx.bestHistory| ensures nx.bestHistory[i] <= nx.best.value.fitness {
      if i < |st.bestHistory| {
        assert nx.bestHistory[i] == st.bestHistory[i];
      }
    }
    if p.elitismSize > 0 && Monotone(st) {
      EliteKeepsTop(ctx, p, fit, st, draws);
      assert Last(st.bestHistory) <= nx.population[0].fitness;
      forall i, j | 0 <= i < j < |nx.bestHistory| ensures nx.bestHistory[i] <= nx.bestHistory[j] {
        if j < |st.bestHistory| {
          assert nx.bestHistory[i] == st.bestHistory[i] && nx.bestHistory[j] == st.bestHistory[j];
        } else {
          assert nx.bestHistory[i] == st.bestHistory[i] <= Last(st.bestHistory);
        }
      }
    }
  }

  /**
   * After `n` generations the histories hold `n + 1` entries (one per
   * evaluation), every fitness is current, and the best individual is at
   * least as good as every recorded top. With an elite of at least one the
   * recorded tops never decrease and the best individual's fitness is the
   * last of them.
   */
  lemma {:induction false} EvolveFacts(ctx: Context, p: Params, fit: Genes -> real, initial: seq<Individual>, draws: nat -> nat -> BreedDraws, n: nat)
    ensures Evolve(ctx, p, fit, initial, draws, n).Some? ==>
              var st := Evolve(ctx, p, fit, initial, draws, n).value;
              Evaluated(fit, st) && |st.bestHistory| == n + 1 && |st.avgHistory| == n + 1 &&
              (p.elitismSize > 0 ==> Monotone(st))
  {
    EvolveShape(ctx, p, fit, initial, draws, n);
  }

  /** What `EvolveFacts` states about the run after `n` generations. */
  predicate RunShape(p: Params, fit: Genes -> real, st: Evolution, n: nat) {
    Evaluated(fit, st) && |st.bestHistory| == n + 1 && |st.avgHistory| == n + 1 &&
    (p.elitismSize > 0 ==> Monotone(st))
  }

  lemma {:induction false} EvolveShape(ctx: Context, p: Params, fit: Genes -> real, initial: seq<Individual>, draws: nat -> nat -> BreedDraws, n: nat)
    ensures Evolve(ctx, p, fit, initial, draws, n).Some? ==> RunShape(p, fit, Evolve(ctx, p, fit, initial, draws, n).value, n)
  {
    if n == 0 {
      InitialShape(p, fit, initial);
    } else {
      EvolveShape(ctx, p, fit, initial, draws, n - 1);
      var prev := Evolve(ctx, p, fit, initial, draws, n - 1);
      if prev.Some? && Advance(ctx, p, fit, prev.value, draws(n - 1)).Some? {
        StepShape(ctx, p, fit, prev.value, draws(n - 1), n - 1);
      }
    }
  }

  lemma InitialShape(p: Params, fit: Genes -> real, initial: seq<Individual>)
    ensures var r := EvaluatePopulation(Evolution(initial, None, [], []), fit);
      r.Some? ==> RunShape(p, fit, r.value, 0)
  {
    EvaluatedInitial(fit, initial);
  }

  lemma StepShape(ctx: Context, p: Params, fit: Genes -> real, st: Evolution, draws: nat -> BreedDraws, n: nat)
    requires RunShape(p, fit, st, n)
    requires Advance(ctx, p, fit, st, draws).Some?
    ensures RunShape(p, fit, Advance(ctx, p, fit, st, draws).value, n + 1)
  {
    EvaluatedStep(ctx, p, fit, st, draws);
  }

  /** `get_statistics`. */
  datatype Statistics = Statistics(bestFitness: real, finalAvgFitness: real, generations: nat, improvement: real)

  function GetStatistics(st: Option<Evolution>): Statistics {
    match st
    case None => Statistics(0.0, 0.0, 0, 0.0)
    case Some(e) =>
      Statistics(
        if e.best.Some? then e.best.value.fitness else 0.0,
        if |e.avgHistory| > 0 then Last(e.avgHistory) else 0.0,
        |e.bestHistory|,
        if |e.bestHistory| > 0 then Last(e.bestHistory) - e.bestHistory[0] else 0.0)
  }

  /**
   * After a run of `generations` generations the statistics count
   * `generations + 1` evaluations; with an elite the improvement is never
   * negative and the best fitness is the last recorded top.
   */
  lemma StatisticsFacts(ctx: Context, p: Params, fit: Genes -> real, initial: seq<Individual>, draws: nat -> nat -> BreedDraws)
    ensures var st := Evolve(ctx, p, fit, initial, draws, p.generations);
      st.Some? ==>
        var s := GetStatistics(st);
        s.generations == p.generations + 1 &&
        s.improvement == Last(st.value.bestHistory) - st.value.bestHistory[0] &&
        (p.elitismSize > 0 ==> s.improvement >= 0.0 && s.bestFitness == Last(st.value.bestHistory))
  {
    EvolveFacts(ctx, p, fit, initial, draws, p.generations);
  }
}
