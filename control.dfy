/**
 * The command-center toggle of `control_command_center_system`
 * (src/structures.rs). For every player and every structure, in query
 * order, a player standing inside a structure's grid on the cell of one of
 * its command-center modules reads the pending input actions; each
 * `SpacePressed` takes control of a free command center or releases one the
 * player holds. The input reader is drained by the first such (player,
 * structure, module) triple, so later triples read nothing.
 */
module StructureControl {
  import opened Wrappers
  import opened Ecs
  import opened Modules
  import opened Structures

  /** The input actions sent by the keyboard system (src/inputs.rs). */
  datatype InputAction = Break | Move(direction: Vec3) | SpacePressed

  datatype ModuleInteractionEvent =
    | TakeControl(playerEntity: Entity, structureEntity: Entity)
    | ReleaseControl(playerEntity: Entity, structureEntity: Entity)

  /**
   * What a toggle changes: the command center's connected entity, the
   * resource's controlling flag and the structure's `ControlledByPlayer`.
   */
  datatype ControlState = ControlState(connected: Option<Entity>, controlling: bool, controlledBy: Option<Entity>)

  /** One `SpacePressed`: take a free command center, release one held by this player, else nothing. */
  function PressSpace(player: Entity, structure: Entity, st: ControlState): (ControlState, seq<ModuleInteractionEvent>)
  {
    if st.connected.None? then
      (ControlState(Some(player), true, Some(player)), [TakeControl(player, structure)])
    else if st.connected == Some(player) then
      (ControlState(None, false, None), [ReleaseControl(player, structure)])
    else
      (st, [])
  }

  /** The pending actions read in order; only `SpacePressed` has an effect. */
  function ReadActions(actions: seq<InputAction>, player: Entity, structure: Entity, st: ControlState)
    : (ControlState, seq<ModuleInteractionEvent>)
  {
    if actions == [] then (st, [])
    else
      var (s, events) := ReadActions(actions[..|actions| - 1], player, structure, st);
      if actions[|actions| - 1] == SpacePressed then
        var (s', more) := PressSpace(player, structure, s);
        (s', events + more)
      else (s, events)
  }

  /** The number of `SpacePressed` actions. */
  function CountSpace(actions: seq<InputAction>): nat {
    if actions == [] then 0
    else CountSpace(actions[..|actions| - 1]) + (if actions[|actions| - 1] == SpacePressed then 1 else 0)
  }

  /** Pressing space on a free command center takes it; pressing again releases it. */
  lemma TakeThenRelease(player: Entity, structure: Entity, st: ControlState)
    requires st.connected.None?
    ensures var (taken, e1) := PressSpace(player, structure, st);
            var (released, e2) := PressSpace(player, structure, taken);
            && taken.connected == Some(player) && taken.controlling && taken.controlledBy == Some(player)
            && e1 == [TakeControl(player, structure)]
            && released.connected == None && !released.controlling && released.controlledBy == None
            && e2 == [ReleaseControl(player, structure)]
  {
  }

  /** A command center held by another player is left alone, however many times space is pressed. */
  lemma {:induction false} HeldByAnotherIsUntouched(actions: seq<InputAction>, player: Entity, structure: Entity, st: ControlState)
    requires st.connected.Some? && st.connected != Some(player)
    ensures ReadActions(actions, player, structure, st) == (st, [])
  {
    if actions != [] {
      HeldByAnotherIsUntouched(actions[..|actions| - 1], player, structure, st);
      var none: seq<ModuleInteractionEvent> := [];
      assert none + none == none;
    }
  }

  /**
   * From a free command center or one this player holds, every `SpacePressed`
   * flips the connection and sends one event; after at least one press the
   * flag and the structure's component agree with the connection.
   */
  lemma {:induction false} ReadActionsToggles(actions: seq<InputAction>, player: Entity, structure: Entity, st: ControlState)
    requires st.connected.None? || st.connected == Some(player)
    ensures var (s, events) := ReadActions(actions, player, structure, st);
            && |events| == CountSpace(actions)
            && s.connected == (if CountSpace(actions) % 2 == 0 then st.connected
                               else if st.connected.None? then Some(player) else None)
            && (CountSpace(actions) == 0 ==> s == st)
            && (CountSpace(actions) > 0 ==> s.controlling == s.connected.Some? && s.controlledBy == s.connected)
  {
    if actions != [] {
      ReadActionsToggles(actions[..|actions| - 1], player, structure, st);
    }
  }

  /** Whether `child` is a command-center module whose cell is `g`. */
  predicate IsCommandCenterAt(child: Entity, g: Coord, modules: map<Entity, Module>) {
    child in modules && modules[child].moduleType == CommandCenter && modules[child].innerGridPos == g
  }

  /** The player's cell in the structure's grid. */
  function PlayerCell(p: PlayerPose, s: StructureEntity): Coord {
    s.structure.WorldToGrid(p.translation, s.transform)
  }

  /** The (player, structure, module) triple that reads the input actions. */
  datatype ControlTarget = ControlTarget(player: PlayerPose, structure: StructureEntity, commandCenter: Entity)

  /** Whether the triple passes every test in front of the read loop. */
  predicate Qualifies(p: PlayerPose, s: StructureEntity, child: Entity, modules: map<Entity, Module>) {
    var g := PlayerCell(p, s);
    s.structure.IsWithinGridBounds(g.0, g.1) && IsCommandCenterAt(child, g, modules)
  }

  function OrElse<T>(a: Option<T>, b: Option<T>): Option<T> {
    if a.Some? then a else b
  }

  /** The first child that is a command center at `g`. */
  function FirstInChildren(g: Coord, children: seq<Entity>, modules: map<Entity, Module>): Option<Entity>
  {
    if children == [] then None
    else
      var last := children[|children| - 1];
      OrElse(FirstInChildren(g, children[..|children| - 1], modules),
             if IsCommandCenterAt(last, g, modules) then Some(last) else None)
  }

  /** The qualifying child of one structure for one player, if the player is within its bounds. */
  function StructureTarget(p: PlayerPose, s: StructureEntity, modules: map<Entity, Module>): Option<ControlTarget>
  {
    var g := PlayerCell(p, s);
    if s.structure.IsWithinGridBounds(g.0, g.1) then
      var c := FirstInChildren(g, s.children, modules);
      if c.Some? then Some(ControlTarget(p, s, c.value)) else None
    else None
  }

  /** The first qualifying triple for one player, structures in query order. */
  function FirstInStructures(p: PlayerPose, structures: seq<StructureEntity>, modules: map<Entity, Module>): Option<ControlTarget>
  {
    if structures == [] then None
    else OrElse(FirstInStructures(p, structures[..|structures| - 1], modules),
                StructureTarget(p, structures[|structures| - 1], modules))
  }

  /** The first qualifying triple, players in the outer loop. */
  function FirstControlTarget(players: seq<PlayerPose>, structures: seq<StructureEntity>, modules: map<Entity, Module>): Option<ControlTarget>
  {
    if players == [] then None
    else OrElse(FirstControlTarget(players[..|players| - 1], structures, modules),
                FirstInStructures(players[|players| - 1], structures, modules))
  }

  /** The first qualifying child is a qualifying child, and there is one exactly when some child qualifies. */
  lemma {:induction false} FirstInChildrenFinds(g: Coord, children: seq<Entity>, modules: map<Entity, Module>)
    ensures FirstInChildren(g, children, modules).Some? ==>
              FirstInChildren(g, children, modules).value in children
              && IsCommandCenterAt(FirstInChildren(g, children, modules).value, g, modules)
    ensures FirstInChildren(g, children, modules).None? <==>
              forall c :: c in children ==> !IsCommandCenterAt(c, g, modules)
  {
    if children != [] {
      var prefix := children[..|children| - 1];
      FirstInChildrenFinds(g, prefix, modules);
      assert forall c :: c in children <==> c in prefix || c == children[|children| - 1];
    }
  }

  /** The same for the structures of one player. */
  lemma {:induction false} FirstInStructuresFinds(p: PlayerPose, structures: seq<StructureEntity>, modules: map<Entity, Module>)
    ensures var t := FirstInStructures(p, structures, modules);
            t.Some? ==> t.value.player == p && t.value.structure in structures
                        && t.value.commandCenter in t.value.structure.children
                        && Qualifies(p, t.value.structure, t.value.commandCenter, modules)
    ensures FirstInStructures(p, structures, modules).None? <==>
              forall s, c :: s in structures && c in s.children ==> !Qualifies(p, s, c, modules)
  {
    if structures != [] {
      var prefix := structures[..|structures| - 1];
      var last := structures[|structures| - 1];
      FirstInStructuresFinds(p, prefix, modules);
      FirstInChildrenFinds(PlayerCell(p, last), last.children, modules);
      assert forall s :: s in structures <==> s in prefix || s == last;
    }
  }

  /**
   * A toggle happens only for a player within a structure's bounds whose
   * cell is the cell of one of that structure's command centers; and some
   * triple is chosen exactly when such a player exists.
   */
  lemma {:induction false} ControlTargetQualifies(players: seq<PlayerPose>, structures: seq<StructureEntity>, modules: map<Entity, Module>)
    ensures var t := FirstControlTarget(players, structures, modules);
            t.Some? ==> t.value.player in players && t.value.structure in structures
                        && t.value.commandCenter in t.value.structure.children
                        && Qualifies(t.value.player, t.value.structure, t.value.commandCenter, modules)
    ensures FirstControlTarget(players, structures, modules).None? <==>
              forall p, s, c :: p in players && s in structures && c in s.children ==> !Qualifies(p, s, c, modules)
  {
    if players != [] {
      var prefix := players[..|players| - 1];
      var last := players[|players| - 1];
      ControlTargetQualifies(prefix, structures, modules);
      FirstInStructuresFinds(last, structures, modules);
      assert forall p :: p in players <==> p in prefix || p == last;
    }
  }

  /**
   * The state after the system: untouched when no triple qualifies;
   * otherwise the chosen command center, its structure and the resource hold
   * what reading every action from the old state gives, and nothing else
   * changed. `connected0`, `controlledBy0` and `controlling0` are the old state.
   */
  ghost predicate Outcome(target: Option<ControlTarget>, actions: seq<InputAction>,
                          modules: map<Entity, Module>, structures: seq<StructureEntity>, resource: PlayerResource,
                          connected0: map<Entity, Option<Entity>>, controlledBy0: map<StructureEntity, Option<Entity>>,
                          controlling0: bool, events: seq<ModuleInteractionEvent>)
    reads resource, modules.Values, structures
  {
    && modules.Keys <= connected0.Keys
    && (forall s :: s in structures ==> s in controlledBy0)
    && match target
       case None =>
         && events == []
         && resource.isControllingStructure == controlling0
         && (forall e :: e in modules ==> modules[e].entityConnected == connected0[e])
         && (forall s :: s in structures ==> s.controlledBy == controlledBy0[s])
       case Some(t) =>
         && t.commandCenter in modules && t.structure in structures
         && var (final, sent) := ReadActions(actions, t.player.entity, t.structure.id,
                                             ControlState(connected0[t.commandCenter], controlling0, controlledBy0[t.structure]));
         && events == sent
         && resource.isControllingStructure == final.controlling
         && modules[t.commandCenter].entityConnected == final.connected
         && t.structure.controlledBy == final.controlledBy
         && (forall e :: e in modules && e != t.commandCenter ==> modules[e].entityConnected == connected0[e])
         && (forall s :: s in structures && s != t.structure ==> s.controlledBy == controlledBy0[s])
  }

  /** The reader is drained once some triple has been chosen, and untouched before. */
  ghost predicate Progress(target: Option<ControlTarget>, pending: seq<InputAction>, actions: seq<InputAction>,
                           modules: map<Entity, Module>, structures: seq<StructureEntity>, resource: PlayerResource,
                           connected0: map<Entity, Option<Entity>>, controlledBy0: map<StructureEntity, Option<Entity>>,
                           controlling0: bool, events: seq<ModuleInteractionEvent>)
    reads resource, modules.Values, structures
  {
    && pending == (if target.Some? then [] else actions)
    && Outcome(target, actions, modules, structures, resource, connected0, controlledBy0, controlling0, events)
  }

  /** No two module entities share a component. */
  ghost predicate Injective(modules: map<Entity, Module>) {
    forall e, f :: e in modules && f in modules && e != f ==> modules[e] != modules[f]
  }

  /** The read loop of one qualifying triple. */
  method ReadInputs(actions: seq<InputAction>, player: Entity, s: StructureEntity, commandCenter: Module, resource: PlayerResource)
    returns (events: seq<ModuleInteractionEvent>)
    modifies s, commandCenter, resource
    ensures (ControlState(commandCenter.entityConnected, resource.isControllingStructure, s.controlledBy), events)
            == ReadActions(actions, player, s.id,
                           ControlState(old(commandCenter.entityConnected), old(resource.isControllingStructure), old(s.controlledBy)))
    ensures resource.insideStructure == old(resource.insideStructure)
  {
    ghost var st0 := ControlState(commandCenter.entityConnected, resource.isControllingStructure, s.controlledBy);
    events := [];
    var i := 0;
    while i < |actions|
      invariant i <= |actions|
      invariant (ControlState(commandCenter.entityConnected, resource.isControllingStructure, s.controlledBy), events)
                == ReadActions(actions[..i], player, s.id, st0)
      invariant resource.insideStructure == old(resource.insideStructure)
    {
      assert actions[..i + 1][..i] == actions[..i];
      ghost var st := ControlState(commandCenter.entityConnected, resource.isControllingStructure, s.controlledBy);
      ghost var done := events;
      if actions[i] == SpacePressed {
        ghost var (st', more) := PressSpace(player, s.id, st);
        if commandCenter.entityConnected.None? {
          commandCenter.entityConnected := Some(player);
          s.controlledBy := Some(player);
          resource.isControllingStructure := true;
          events := events + [TakeControl(player, s.id)];
        } else if commandCenter.entityConnected == Some(player) {
          commandCenter.entityConnected := None;
          s.controlledBy := None;
          resource.isControllingStructure := false;
          events := events + [ReleaseControl(player, s.id)];
        }
        assert ControlState(commandCenter.entityConnected, resource.isControllingStructure, s.controlledBy) == st';
        assert events == done + more;
      }
      i := i + 1;
    }
    assert actions[..|actions|] == actions;
  }

  /** The loop over one structure's children, for a player within its bounds at cell `g`. */
  method ScanChildren(actions: seq<InputAction>, p: PlayerPose, s: StructureEntity, g: Coord,
                      modules: map<Entity, Module>, structures: seq<StructureEntity>, resource: PlayerResource,
                      pending: seq<InputAction>, events: seq<ModuleInteractionEvent>,
                      ghost sofar: Option<ControlTarget>, ghost connected0: map<Entity, Option<Entity>>,
                      ghost controlledBy0: map<StructureEntity, Option<Entity>>, ghost controlling0: bool)
    returns (pending': seq<InputAction>, events': seq<ModuleInteractionEvent>)
    requires Injective(modules) && s in structures
    requires Progress(sofar, pending, actions, modules, structures, resource, connected0, controlledBy0, controlling0, events)
    modifies resource, modules.Values, s
    ensures var c := FirstInChildren(g, s.children, modules);
            Progress(OrElse(sofar, if c.Some? then Some(ControlTarget(p, s, c.value)) else None),
                     pending', actions, modules, structures, resource, connected0, controlledBy0, controlling0, events')
    ensures resource.insideStructure == old(resource.insideStructure)
  {
    pending', events' := pending, events;
    var k := 0;
    while k < |s.children|
      invariant k <= |s.children|
      invariant var c := FirstInChildren(g, s.children[..k], modules);
                Progress(OrElse(sofar, if c.Some? then Some(ControlTarget(p, s, c.value)) else None),
                         pending', actions, modules, structures, resource, connected0, controlledBy0, controlling0, events')
      invariant resource.insideStructure == old(resource.insideStructure)
    {
      assert s.children[..k + 1][..k] == s.children[..k];
      var child := s.children[k];
      if child in modules {
        var commandCenter := modules[child];
        if commandCenter.moduleType == CommandCenter && commandCenter.innerGridPos == g {
          var more := ReadInputs(pending', p.entity, s, commandCenter, resource);
          events' := events' + more;
          pending' := [];
        }
      }
      k := k + 1;
    }
    assert s.children[..|s.children|] == s.children;
  }

  /** The loop over the structures, for one player. */
  method ScanStructures(actions: seq<InputAction>, p: PlayerPose,
                        modules: map<Entity, Module>, structures: seq<StructureEntity>, resource: PlayerResource,
                        pending: seq<InputAction>, events: seq<ModuleInteractionEvent>,
                        ghost sofar: Option<ControlTarget>, ghost connected0: map<Entity, Option<Entity>>,
                        ghost controlledBy0: map<StructureEntity, Option<Entity>>, ghost controlling0: bool)
    returns (pending': seq<InputAction>, events': seq<ModuleInteractionEvent>)
    requires Injective(modules)
    requires Progress(sofar, pending, actions, modules, structures, resource, connected0, controlledBy0, controlling0, events)
    modifies resource, modules.Values, structures
    ensures Progress(OrElse(sofar, FirstInStructures(p, structures, modules)),
                     pending', actions, modules, structures, resource, connected0, controlledBy0, controlling0, events')
    ensures resource.insideStructure == old(resource.insideStructure)
  {
    pending', events' := pending, events;
    var j := 0;
    while j < |structures|
      invariant j <= |structures|
      invariant Progress(OrElse(sofar, FirstInStructures(p, structures[..j], modules)),
                         pending', actions, modules, structures, resource, connected0, controlledBy0, controlling0, events')
      invariant resource.insideStructure == old(resource.insideStructure)
    {
      assert structures[..j + 1][..j] == structures[..j];
      var s := structures[j];
      ghost var prev := OrElse(sofar, FirstInStructures(p, structures[..j], modules));
      assert structures[..j + 1][j] == s;
      assert OrElse(sofar, FirstInStructures(p, structures[..j + 1], modules)) == OrElse(prev, StructureTarget(p, s, modules));
      var g := s.structure.WorldToGrid(p.translation, s.transform);
      if s.structure.IsWithinGridBounds(g.0, g.1) {
        pending', events' := ScanChildren(actions, p, s, g, modules, structures, resource, pending', events',
                                          prev, connected0, controlledBy0, controlling0);
      }
      j := j + 1;
    }
    assert structures[..|structures|] == structures;
  }

  /**
   * The whole system: the first qualifying triple, in query order, reads
   * every pending action; every other triple reads nothing.
   */
  method ControlCommandCenter(actions: seq<InputAction>, players: seq<PlayerPose>, structures: seq<StructureEntity>,
                              modules: map<Entity, Module>, resource: PlayerResource)
    returns (events: seq<ModuleInteractionEvent>)
    requires Injective(modules)
    modifies resource, modules.Values, structures
    ensures Outcome(FirstControlTarget(players, structures, modules), actions, modules, structures, resource,
                    map e | e in modules :: old(modules[e].entityConnected),
                    map s | s in structures :: old(s.controlledBy),
                    old(resource.isControllingStructure), events)
    ensures resource.insideStructure == old(resource.insideStructure)
  {
    ghost var connected0 := map e | e in modules :: modules[e].entityConnected;
    ghost var controlledBy0 := map s | s in structures :: s.controlledBy;
    ghost var controlling0 := resource.isControllingStructure;
    var pending := actions;
    events := [];
    var i := 0;
    while i < |players|
      invariant i <= |players|
      invariant Progress(FirstControlTarget(players[..i], structures, modules),
                         pending, actions, modules, structures, resource, connected0, controlledBy0, controlling0, events)
      invariant resource.insideStructure == old(resource.insideStructure)
    {
      assert players[..i + 1][..i] == players[..i];
      pending, events := ScanStructures(actions, players[i], modules, structures, resource, pending, events,
                                        FirstControlTarget(players[..i], structures, modules),
                                        connected0, controlledBy0, controlling0);
      i := i + 1;
    }
    assert players[..|players|] == players;
  }
}
