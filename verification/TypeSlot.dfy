/** The `type_slot()` that the derive macro emits: threads race for dense slot numbers
    with a relaxed load, a fetch_add on a shared counter and a compare-exchange. */
module TypeSlot {
  import opened Bytes

  /** Where one call stands. `drawn` is the number it took from the counter, if any. */
  datatype Pc =
    | Loading
    | Bumping
    | Swapping(drawn: nat)
    | Returned(slot: nat, taken: Option<nat>)

  datatype Call = Call(ty: nat, pc: Pc)

  /** `slots` holds the per-type atomics, 0 where absent; `counter` is a u16. */
  datatype State = State(counter: nat, slots: map<nat, nat>, calls: seq<Call>)

  /** One scheduling decision: which call moves, and whether its relaxed load still sees
      the initial 0. The atomic is written at most once, so 0 is the only stale value. */
  datatype Move = Move(call: nat, stale: bool)

  function SlotOf(s: State, ty: nat): nat {
    if ty in s.slots then s.slots[ty] else 0
  }

  /** The next atomic action of a call. */
  function Act(s: State, m: Move): State {
    if m.call >= |s.calls| then s else
      var c := s.calls[m.call];
      match c.pc
      case Loading =>
        var cached := if m.stale then 0 else SlotOf(s, c.ty);
        Become(s, m.call, if cached != 0 then Returned(cached, None) else Bumping)
      case Bumping =>
        Become(s, m.call, Swapping(s.counter)).(counter := (s.counter + 1) % 0x1_0000)
      case Swapping(n) =>
        var existing := SlotOf(s, c.ty);
        if existing == 0 then Become(s, m.call, Returned(n, Some(n))).(slots := s.slots[c.ty := n])
        else Become(s, m.call, Returned(existing, Some(n)))
      case Returned(_, _) => s
  }

  function Become(s: State, i: nat, pc: Pc): State
    requires i < |s.calls|
  {
    s.(calls := s.calls[i := Call(s.calls[i].ty, pc)])
  }

  function Run(s: State, moves: seq<Move>): State
    decreases moves
  {
    if moves == [] then s else Run(Act(s, moves[0]), moves[1..])
  }

  /** The program starts with the counter at 1 and calls for any types about to begin. */
  function Initial(types: seq<nat>): State {
    State(1, map[], Starting(types))
  }

  function Starting(types: seq<nat>): (calls: seq<Call>)
    ensures |calls| == |types| && forall i :: 0 <= i < |types| ==> calls[i] == Call(types[i], Loading)
  {
    if types == [] then [] else [Call(types[0], Loading)] + Starting(types[1..])
  }

  /** The number a call drew, 0 if none. */
  function Drawn(c: Call): nat {
    match c.pc
    case Swapping(n) => n
    case Returned(_, Some(n)) => n
    case _ => 0
  }

  /** How many numbers were drawn. */
  function Draws(calls: seq<Call>): nat {
    if calls == [] then 0 else (if Drawn(calls[0]) != 0 then 1 else 0) + Draws(calls[1..])
  }

  predicate DrawnDistinct(s: State) {
    (forall i :: 0 <= i < |s.calls| ==> Drawn(s.calls[i]) < s.counter)
    && (forall i, j :: 0 <= i < j < |s.calls| && Drawn(s.calls[i]) != 0 ==> Drawn(s.calls[i]) != Drawn(s.calls[j]))
    && (forall i :: 0 <= i < |s.calls| && s.calls[i].pc.Swapping? ==> s.calls[i].pc.drawn != 0)
    && (forall i :: 0 <= i < |s.calls| && s.calls[i].pc.Returned? && s.calls[i].pc.taken.Some? ==>
          s.calls[i].pc.taken.value != 0)
  }

  /** A set slot was drawn by a call for that very type, which returned it. */
  ghost predicate SlotsOwned(s: State) {
    forall ty :: SlotOf(s, ty) != 0 ==> exists i :: Owns(s, i, ty)
  }

  predicate Owns(s: State, i: int, ty: nat) {
    0 <= i < |s.calls| && s.calls[i] == Call(ty, Returned(SlotOf(s, ty), Some(SlotOf(s, ty))))
  }

  predicate ReturnsSlot(s: State) {
    forall i :: 0 <= i < |s.calls| && s.calls[i].pc.Returned? ==>
      s.calls[i].pc.slot != 0 && s.calls[i].pc.slot == SlotOf(s, s.calls[i].ty)
  }

  ghost predicate Inv(s: State) {
    s.counter == 1 + Draws(s.calls) && |s.calls| < 0xFFFF && DrawnDistinct(s) && SlotsOwned(s) && ReturnsSlot(s)
  }

  lemma {:induction false} DrawsUpdate(calls: seq<Call>, i: nat, c: Call)
    requires i < |calls|
    ensures Draws(calls[i := c])
            == Draws(calls) - (if Drawn(calls[i]) != 0 then 1 else 0) + (if Drawn(c) != 0 then 1 else 0)
  {
    if i == 0 {
      assert calls[0 := c][1..] == calls[1..];
    } else {
      DrawsUpdate(calls[1..], i - 1, c);
      assert calls[i := c][1..] == calls[1..][i - 1 := c];
    }
  }

  lemma {:induction false} DrawsBound(calls: seq<Call>)
    ensures Draws(calls) <= |calls|
  {
    if calls != [] { DrawsBound(calls[1..]); }
  }

  lemma BumpKeepsInv(s: State, i: nat)
    requires Inv(s) && i < |s.calls| && s.calls[i].pc.Bumping?
    ensures Inv(Act(s, Move(i, false)))
  {
    var s' := Act(s, Move(i, false));
    DrawsUpdate(s.calls, i, s'.calls[i]);
    DrawsBound(s'.calls);
    assert s'.counter == 1 + Draws(s'.calls);
    OwnersStay(s, s');
  }

  /** Owners of slots have returned, so no move of another call disturbs them. */
  lemma OwnersStay(s: State, s': State)
    requires SlotsOwned(s) && s'.slots == s.slots && |s'.calls| == |s.calls|
    requires forall k :: 0 <= k < |s.calls| && s.calls[k].pc.Returned? ==> s'.calls[k] == s.calls[k]
    ensures SlotsOwned(s')
  {
    forall ty | SlotOf(s', ty) != 0 ensures exists k :: Owns(s', k, ty) {
      var k :| Owns(s, k, ty);
      assert Owns(s', k, ty);
    }
  }

  lemma SwapKeepsInv(s: State, i: nat)
    requires Inv(s) && i < |s.calls| && s.calls[i].pc.Swapping?
    ensures Inv(Act(s, Move(i, false)))
  {
    var s' := Act(s, Move(i, false));
    DrawsUpdate(s.calls, i, s'.calls[i]);
    assert DrawnDistinct(s') by { hide SlotsOwned; DrawnStays(s, s', i); }
    if SlotOf(s, s.calls[i].ty) != 0 {
      OwnersStay(s, s');
    } else {
      WinnerOwns(s, i);
    }
  }

  lemma DrawnStays(s: State, s': State, i: nat)
    requires DrawnDistinct(s) && i < |s.calls| && |s'.calls| == |s.calls| && s'.counter == s.counter
    requires forall k :: 0 <= k < |s.calls| && k != i ==> s'.calls[k] == s.calls[k]
    requires s.calls[i].pc.Swapping? && s'.calls[i].pc.Returned? && s'.calls[i].pc.taken == Some(s.calls[i].pc.drawn)
    ensures DrawnDistinct(s')
  {
    assert forall k :: 0 <= k < |s.calls| ==> Drawn(s'.calls[k]) == Drawn(s.calls[k]);
    hide Drawn;
  }

  lemma WinnerOwns(s: State, i: nat)
    requires SlotsOwned(s) && ReturnsSlot(s) && i < |s.calls| && s.calls[i].pc.Swapping?
    requires s.calls[i].pc.drawn != 0 && SlotOf(s, s.calls[i].ty) == 0
    ensures SlotsOwned(Act(s, Move(i, false))) && ReturnsSlot(Act(s, Move(i, false)))
  {
    var s' := Act(s, Move(i, false));
    forall ty | SlotOf(s', ty) != 0 ensures exists k :: Owns(s', k, ty) {
      if ty == s.calls[i].ty {
        assert Owns(s', i, ty);
      } else {
        var k :| Owns(s, k, ty);
        assert Owns(s', k, ty);
      }
    }
  }

  lemma LoadKeepsInv(s: State, m: Move)
    requires Inv(s) && m.call < |s.calls| && s.calls[m.call].pc.Loading?
    ensures Inv(Act(s, m))
  {
    var s' := Act(s, m);
    DrawsUpdate(s.calls, m.call, s'.calls[m.call]);
    OwnersStay(s, s');
  }

  lemma ActKeepsInv(s: State, m: Move)
    requires Inv(s)
    ensures Inv(Act(s, m))
  {
    if m.call < |s.calls| {
      match s.calls[m.call].pc {
        case Loading => LoadKeepsInv(s, m);
        case Bumping => BumpKeepsInv(s, m.call);
        case Swapping(_) => SwapKeepsInv(s, m.call);
        case Returned(_, _) =>
      }
    }
  }

  lemma {:induction false} RunKeepsInv(s: State, moves: seq<Move>)
    requires Inv(s)
    ensures Inv(Run(s, moves))
    decreases moves
  {
    hide Inv, Act;
    if moves != [] {
      ActKeepsInv(s, moves[0]);
      RunKeepsInv(Act(s, moves[0]), moves[1..]);
    }
  }

  lemma {:induction false} NothingDrawn(types: seq<nat>)
    ensures Draws(Starting(types)) == 0
  {
    if types != [] {
      NothingDrawn(types[1..]);
      assert Starting(types)[1..] == Starting(types[1..]);
    }
  }

  /** For every interleaving, with loads that may be stale: all calls for one type return
      one non-zero slot, calls for different types return different slots. The u16 counter
      cannot wrap because fewer than 65535 calls draw from it. */
  lemma SlotsAreUnique(types: seq<nat>, moves: seq<Move>, i: nat, j: nat)
    requires |types| < 0xFFFF && i < |types| && j < |types|
    ensures var s := Run(Initial(types), moves);
            |s.calls| == |types| && s.calls[i].ty == types[i] && s.calls[j].ty == types[j]
            && (s.calls[i].pc.Returned? && s.calls[j].pc.Returned? ==>
                s.calls[i].pc.slot != 0 && (types[i] == types[j] <==> s.calls[i].pc.slot == s.calls[j].pc.slot))
  {
    NothingDrawn(types);
    RunKeepsInv(Initial(types), moves);
    TypesStay(Initial(types), moves);
    var s := Run(Initial(types), moves);
    if s.calls[i].pc.Returned? && s.calls[j].pc.Returned? && s.calls[i].pc.slot == s.calls[j].pc.slot {
      SlotsDiffer(s, s.calls[i].ty, s.calls[j].ty);
    }
  }

  lemma SlotsDiffer(s: State, t: nat, u: nat)
    requires Inv(s) && SlotOf(s, t) != 0 && SlotOf(s, t) == SlotOf(s, u)
    ensures t == u
  {
    var i :| Owns(s, i, t);
    var j :| Owns(s, j, u);
    assert Drawn(s.calls[i]) == Drawn(s.calls[j]);
  }

  lemma {:induction false} TypesStay(s: State, moves: seq<Move>)
    ensures |Run(s, moves).calls| == |s.calls|
    ensures forall i :: 0 <= i < |s.calls| ==> Run(s, moves).calls[i].ty == s.calls[i].ty
    decreases moves
  {
    if moves != [] { TypesStay(Act(s, moves[0]), moves[1..]); }
  }

  /** A lost compare-exchange only wastes a number: what the loser drew is no type's slot,
      and the counter has moved by exactly one for each draw. */
  lemma LostSwapWastesOneNumber(types: seq<nat>, moves: seq<Move>, i: nat, ty: nat)
    requires |types| < 0xFFFF && i < |types|
    ensures var s := Run(Initial(types), moves);
            s.counter == 1 + Draws(s.calls) && |s.calls| == |types|
            && var pc := s.calls[i].pc;
               (pc.Returned? && pc.taken.Some? && pc.taken.value != pc.slot ==> SlotOf(s, ty) != pc.taken.value)
  {
    hide Run;
    NothingDrawn(types);
    RunKeepsInv(Initial(types), moves);
    TypesStay(Initial(types), moves);
    LostIsNoSlot(Run(Initial(types), moves), i, ty);
  }

  lemma LostIsNoSlot(s: State, i: nat, ty: nat)
    requires Inv(s) && i < |s.calls|
    ensures var c := s.calls[i];
            c.pc.Returned? && c.pc.taken.Some? && c.pc.taken.value != c.pc.slot ==> SlotOf(s, ty) != c.pc.taken.value
  {
    var c := s.calls[i];
    if c.pc.Returned? && c.pc.taken.Some? && SlotOf(s, ty) == c.pc.taken.value {
      var k :| Owns(s, k, ty);
      assert Drawn(s.calls[k]) == Drawn(c);
    }
  }

  // ----- progress

  /** How many of the moves are call `i`'s own. */
  function Own(moves: seq<Move>, i: nat): nat {
    if moves == [] then 0 else (if moves[0].call == i then 1 else 0) + Own(moves[1..], i)
  }

  /** How far a call is from its return, in moves of its own at most. */
  function Left(pc: Pc): nat {
    match pc
    case Loading => 3
    case Bumping => 2
    case Swapping(_) => 1
    case Returned(_, _) => 0
  }

  lemma {:induction false} OwnMovesCount(s: State, moves: seq<Move>, i: nat)
    requires i < |s.calls|
    ensures |Run(s, moves).calls| == |s.calls|
    ensures var left := Left(Run(s, moves).calls[i].pc); left == 0 || left + Own(moves, i) <= Left(s.calls[i].pc)
    decreases moves
  {
    if moves != [] { OwnMovesCount(Act(s, moves[0]), moves[1..], i); }
  }

  /** No call waits for another: whatever the others do, and however many they are, a call
      that made three moves of its own has returned. */
  lemma ThreeMovesReturn(types: seq<nat>, moves: seq<Move>, i: nat)
    requires i < |types| && Own(moves, i) >= 3
    ensures |Run(Initial(types), moves).calls| == |types| && Run(Initial(types), moves).calls[i].pc.Returned?
  {
    hide Run, Own;
    OwnMovesCount(Initial(types), moves, i);
  }

  /** A call that returned stays so, and a slot that was set keeps its number. */
  lemma {:induction false} SetSlotStays(s: State, moves: seq<Move>, ty: nat)
    requires SlotOf(s, ty) != 0
    ensures SlotOf(Run(s, moves), ty) == SlotOf(s, ty)
    decreases moves
  {
    if moves != [] { SetSlotStays(Act(s, moves[0]), moves[1..], ty); }
  }

  lemma {:induction false} RunAppend(s: State, before: seq<Move>, after: seq<Move>)
    ensures Run(s, before + after) == Run(Run(s, before), after)
    decreases before
  {
    if before == [] {
      assert before + after == after;
    } else {
      assert (before + after)[1..] == before[1..] + after;
      RunAppend(Act(s, before[0]), before[1..], after);
    }
  }

  /** Once a slot is taken every call for its type comes back with it: a call that had not
      returned then, wherever it stood and whatever number it drew, does so within three
      more moves of its own, and the slot is still the same. */
  lemma TakenSlotIsReturned(types: seq<nat>, before: seq<Move>, after: seq<Move>, i: nat)
    requires |types| < 0xFFFF && i < |types| && Own(after, i) >= 3
    requires SlotOf(Run(Initial(types), before), types[i]) != 0
    ensures var s := Run(Initial(types), before + after);
            |s.calls| == |types| && s.calls[i].pc.Returned?
            && s.calls[i].pc.slot == SlotOf(Run(Initial(types), before), types[i])
  {
    hide Run, Own, Act;
    var s := Run(Initial(types), before);
    RunAppend(Initial(types), before, after);
    TypesStay(Initial(types), before);
    OwnMovesCount(s, after, i);
    SetSlotStays(s, after, types[i]);
    NothingDrawn(types);
    RunKeepsInv(Initial(types), before + after);
    TypesStay(Initial(types), before + after);
  }

  /** The two ways to a taken slot, from any reachable state: a load that is not stale and
      sees it returns it at once and draws no number, any other load goes on to draw one; a
      compare-exchange that finds it taken returns it too, and the number drawn before is
      lost. Nothing else changes. */
  lemma TakenInOneMove(types: seq<nat>, moves: seq<Move>, i: nat, stale: bool)
    requires |types| < 0xFFFF && i < |types|
    ensures var s := Run(Initial(types), moves);
            var t := Run(Initial(types), moves + [Move(i, stale)]);
            |s.calls| == |types| == |t.calls| && var slot := SlotOf(s, types[i]);
            (slot != 0 && s.calls[i].pc == Loading && !stale ==>
               t == State(s.counter, s.slots, s.calls[i := Call(types[i], Returned(slot, None))]))
            && (s.calls[i].pc == Loading && (slot == 0 || stale) ==> t.calls[i].pc == Bumping)
            && (slot != 0 && s.calls[i].pc.Swapping? ==>
                  s.calls[i].pc.drawn != slot && 1 <= s.calls[i].pc.drawn < s.counter
                  && t == State(s.counter, s.slots,
                                s.calls[i := Call(types[i], Returned(slot, Some(s.calls[i].pc.drawn)))]))
  {
    hide Run;
    var s := Run(Initial(types), moves);
    NothingDrawn(types);
    RunKeepsInv(Initial(types), moves);
    TypesStay(Initial(types), moves);
    RunAppend(Initial(types), moves, [Move(i, stale)]);
    RunOfOne(s, Move(i, stale));
    if SlotOf(s, types[i]) != 0 && s.calls[i].pc.Swapping? {
      var k :| Owns(s, k, types[i]);
      assert Drawn(s.calls[k]) == SlotOf(s, types[i]);
    }
  }

  lemma RunOfOne(s: State, m: Move)
    ensures Run(s, [m]) == Act(s, m)
  {
    assert [m][1..] == [];
  }
}
