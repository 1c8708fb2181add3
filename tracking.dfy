/**
 * The inside/outside tracking of `detect_player_inside_structure_system`
 * (src/structures.rs): for every player and every structure, in query
 * order, the shared `PlayerResource.insideStructure` is set to a structure
 * the player stands on (announcing `PlayerEntered`) and cleared when the
 * player leaves the structure it names (announcing `PlayerExited`).
 */
module StructureTracking {
  import opened Wrappers
  import opened Ecs
  import opened Structures

  datatype StructureInteractionEvent =
    | PlayerEntered(playerEntity: Entity, structureEntity: Entity)
    | PlayerExited(playerEntity: Entity, structureEntity: Entity)

  /** Whether the player stands on the structure's grid. */
  predicate Within(p: PlayerPose, s: StructureEntity) {
    s.structure.IsWorldPositionWithinGrid(p.translation, s.transform)
  }

  /**
   * One (player, structure) pair: entering sets the structure unless it is
   * already set; leaving clears it only when it names this structure.
   */
  function InsideStep(inside: Option<Entity>, p: PlayerPose, s: StructureEntity): (r: (Option<Entity>, seq<StructureInteractionEvent>))
    ensures Within(p, s) ==> r.0 == Some(s.id)
    ensures !Within(p, s) ==> r.0 == (if inside == Some(s.id) then None else inside)
    ensures r.1 == [PlayerEntered(p.entity, s.id)] <==> Within(p, s) && inside != Some(s.id)
    ensures r.1 == [PlayerExited(p.entity, s.id)] <==> !Within(p, s) && inside == Some(s.id)
    ensures r.1 == [] <==> r.0 == inside
  {
    if Within(p, s) then
      if inside != Some(s.id) then (Some(s.id), [PlayerEntered(p.entity, s.id)]) else (inside, [])
    else
      if inside == Some(s.id) then (None, [PlayerExited(p.entity, s.id)]) else (inside, [])
  }

  /** One player against the structures, in query order. */
  function TrackStructures(inside: Option<Entity>, p: PlayerPose, structures: seq<StructureEntity>)
    : (Option<Entity>, seq<StructureInteractionEvent>)
  {
    if structures == [] then (inside, [])
    else
      var (i, events) := TrackStructures(inside, p, structures[..|structures| - 1]);
      var (i', step) := InsideStep(i, p, structures[|structures| - 1]);
      (i', events + step)
  }

  /** Every player against every structure, players in the outer loop. */
  function TrackAll(inside: Option<Entity>, players: seq<PlayerPose>, structures: seq<StructureEntity>)
    : (Option<Entity>, seq<StructureInteractionEvent>)
  {
    if players == [] then (inside, [])
    else
      var (i, events) := TrackAll(inside, players[..|players| - 1], structures);
      var (i', more) := TrackStructures(i, players[|players| - 1], structures);
      (i', events + more)
  }

  method DetectPlayerInsideStructure(players: seq<PlayerPose>, structures: seq<StructureEntity>, resource: PlayerResource)
    returns (events: seq<StructureInteractionEvent>)
    modifies resource
    ensures (resource.insideStructure, events) == TrackAll(old(resource.insideStructure), players, structures)
    ensures resource.isControllingStructure == old(resource.isControllingStructure)
  {
    events := [];
    var i := 0;
    while i < |players|
      invariant i <= |players|
      invariant (resource.insideStructure, events) == TrackAll(old(resource.insideStructure), players[..i], structures)
      invariant resource.isControllingStructure == old(resource.isControllingStructure)
    {
      assert players[..i + 1][..i] == players[..i];
      var p := players[i];
      ghost var (start, done) := (resource.insideStructure, events);
      var j := 0;
      while j < |structures|
        invariant j <= |structures|
        invariant var (inside, more) := TrackStructures(start, p, structures[..j]);
                  resource.insideStructure == inside && events == done + more
        invariant resource.isControllingStructure == old(resource.isControllingStructure)
      {
        assert structures[..j + 1][..j] == structures[..j];
        var s := structures[j];
        if s.structure.IsWorldPositionWithinGrid(p.translation, s.transform) {
          if resource.insideStructure != Some(s.id) {
            resource.insideStructure := Some(s.id);
            events := events + [PlayerEntered(p.entity, s.id)];
          }
        } else {
          if resource.insideStructure == Some(s.id) {
            resource.insideStructure := None;
            events := events + [PlayerExited(p.entity, s.id)];
          }
        }
        j := j + 1;
      }
      assert structures[..|structures|] == structures;
      i := i + 1;
    }
    assert players[..|players|] == players;
  }

  /** The resource agrees with the player's position on every structure. */
  ghost predicate Stable(inside: Option<Entity>, p: PlayerPose, structures: seq<StructureEntity>) {
    forall k :: 0 <= k < |structures| ==> (Within(p, structures[k]) <==> inside == Some(structures[k].id))
  }

  /** No two structures share an entity. */
  ghost predicate DistinctIds(structures: seq<StructureEntity>) {
    forall k, l :: 0 <= k < l < |structures| ==> structures[k].id != structures[l].id
  }

  /** The player stands on at most one of the structures. */
  ghost predicate AtMostOneContains(p: PlayerPose, structures: seq<StructureEntity>) {
    forall k, l :: 0 <= k < l < |structures| && Within(p, structures[k]) ==> !Within(p, structures[l])
  }

  /** A pass over structures the resource already agrees with changes nothing and announces nothing. */
  lemma {:induction false} StablePassIsQuiet(inside: Option<Entity>, p: PlayerPose, structures: seq<StructureEntity>)
    requires Stable(inside, p, structures)
    ensures TrackStructures(inside, p, structures) == (inside, [])
  {
    if structures != [] {
      var prefix := structures[..|structures| - 1];
      assert Stable(inside, p, prefix) by {
        forall k | 0 <= k < |prefix| ensures prefix[k] == structures[k] { }
      }
      StablePassIsQuiet(inside, p, prefix);
      var last := structures[|structures| - 1];
      assert Within(p, last) <==> inside == Some(last.id);
      assert InsideStep(inside, p, last) == (inside, []);
      var none: seq<StructureInteractionEvent> := [];
      assert none + none == none;
    }
  }

  /**
   * With distinct structures of which at most one is under the player, one
   * pass leaves the resource agreeing with the player's position.
   */
  lemma {:induction false} PassStabilizes(inside: Option<Entity>, p: PlayerPose, structures: seq<StructureEntity>)
    requires DistinctIds(structures) && AtMostOneContains(p, structures)
    ensures Stable(TrackStructures(inside, p, structures).0, p, structures)
  {
    if structures != [] {
      var n := |structures| - 1;
      var prefix := structures[..n];
      var last := structures[n];
      assert forall k :: 0 <= k < n ==> prefix[k] == structures[k];
      PassStabilizes(inside, p, prefix);
      var i := TrackStructures(inside, p, prefix).0;
      var i' := InsideStep(i, p, last).0;
      forall k | 0 <= k < |structures|
        ensures Within(p, structures[k]) <==> i' == Some(structures[k].id)
      {
        if k < n {
          assert structures[k].id != last.id;
          assert Within(p, prefix[k]) <==> i == Some(prefix[k].id);
          if Within(p, last) {
            assert !Within(p, structures[k]);
          }
        }
      }
    }
  }

  /**
   * For a single player standing still: with distinct structures of which
   * at most one is under the player, a repeated pass announces nothing and
   * changes nothing.
   */
  lemma RepeatedPassIsQuiet(inside: Option<Entity>, p: PlayerPose, structures: seq<StructureEntity>)
    requires DistinctIds(structures) && AtMostOneContains(p, structures)
    ensures var once := TrackAll(inside, [p], structures).0;
            TrackAll(once, [p], structures) == (once, [])
  {
    assert [p][..0] == [];
    var once := TrackStructures(inside, p, structures).0;
    PassStabilizes(inside, p, structures);
    StablePassIsQuiet(once, p, structures);
  }
}
