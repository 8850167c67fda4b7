/**
  The prey steps as the program writes them, with every reference a slot of
  the object vector rather than a node's identity.

  Erasing a node shifts every later node down one slot. After such an erase
  the program re-binds only the Creeper's reference (by name); the other
  prey's reference keeps its old slot, which now holds the node that used to
  follow that prey. The Frame module models references by id, which is how
  the program evidently means them; this module shows what the slot reading
  does instead.
 */
module SlotReferences {
  import opened Wrappers
  import opened Vectors
  import opened SceneGraph
  import opened Agents
  import opened MinecraftScene
  import Frame

  /** The first slot holding a node with the given name. */
  function SlotOfName(ns: seq<Node>, name: string): (r: Option<nat>)
    ensures r.Some? ==> r.value < |ns| && ns[r.value].name == name &&
                        forall j :: 0 <= j < r.value ==> ns[j].name != name
    ensures r.None? ==> forall j :: 0 <= j < |ns| ==> ns[j].name != name
  {
    if |ns| == 0 then None
    else if ns[0].name == name then Some(0)
    else match SlotOfName(ns[1..], name)
      case None => None
      case Some(i) => Some(i + 1)
  }

  /** The Creeper's reference after an erase: the first slot named "Creeper", or left as it was. */
  function RelinkSlot(objects: seq<Node>, creeper: Option<nat>): Option<nat> {
    match SlotOfName(objects, CreeperName)
    case Some(i) => Some(i)
    case None => creeper
  }

  /**
    One prey step on slot references. The prey's slot is moved, and when the
    Creeper's slot lies within 0.8 of it that slot is erased, the prey
    reference cleared and the Creeper re-bound by name. References past the
    end of the vector are left alone.
   */
  function PreyStepBySlot(objects: seq<Node>, creeper: Option<nat>, prey: Option<nat>, flee: Vec3, dt: real, m: Math)
    : (r: Frame.PreyResult)
    ensures creeper.None? || prey.None? ==> r == Frame.PreyResult(objects, creeper, prey, flee)
    ensures r.prey.Some? ==> r.prey == prey && |r.objects| == |objects|
    ensures r.prey.None? && prey.Some? && creeper.Some? && prey.value < |objects| && creeper.value < |objects| ==>
              |r.objects| == |objects| - 1 &&
              r.objects[..prey.value] == objects[..prey.value] &&
              r.objects[prey.value..] == objects[prey.value + 1..]
  {
    if creeper.None? || prey.None? then Frame.PreyResult(objects, creeper, prey, flee)
    else if prey.value >= |objects| || creeper.value >= |objects| then Frame.PreyResult(objects, creeper, prey, flee)
    else
      var p := prey.value;
      var mv := Flee(objects[p].position, flee, dt);
      var moved := objects[p := objects[p].(position := mv.position, orientation := Vec3(0.0, m.atan2(mv.dir.x, mv.dir.z), 0.0))];
      var gap := Sub(moved[creeper.value].position, mv.position);
      if SqLength(gap) < Frame.ExplodeRadiusSq then
        var rest := moved[..p] + moved[p + 1..];
        assert rest[..p] == objects[..p] && rest[p..] == objects[p + 1..];
        Frame.PreyResult(rest, RelinkSlot(rest, creeper), None, mv.dir)
      else
        Frame.PreyResult(moved, creeper, prey, mv.dir)
  }

  datatype Prey = Prey(objects: seq<Node>, creeper: Option<nat>, steve: Option<nat>, pig: Option<nat>)

  /** Steve's step, then the pig's, on slot references. */
  function PreyPartsBySlot(w: Prey, steveFlee: Vec3, pigFlee: Vec3, dt: real, m: Math): (r: Prey)
    ensures w.creeper.None? ==> r == w
    ensures (r.steve.None? || r.steve == w.steve) && (r.pig.None? || r.pig == w.pig)
    ensures |w.objects| - 2 <= |r.objects| <= |w.objects|
    ensures r.steve.Some? && r.pig.Some? ==> |r.objects| == |w.objects|
  {
    var s := PreyStepBySlot(w.objects, w.creeper, w.steve, steveFlee, dt, m);
    var p := PreyStepBySlot(s.objects, s.creeper, w.pig, pigFlee, dt, m);
    Prey(p.objects, p.creeper, s.prey, p.prey)
  }

  /** A slot step whose prey lands within 0.8 of the Creeper erases exactly the prey's slot. */
  lemma SlotStepErases(objects: seq<Node>, c: nat, p: nat, flee: Vec3, dt: real, m: Math)
    requires c < |objects| && p < |objects| && c != p
    requires SqLength(Sub(objects[c].position, Flee(objects[p].position, flee, dt).position)) < Frame.ExplodeRadiusSq
    ensures var rest := objects[..p] + objects[p + 1..];
            PreyStepBySlot(objects, Some(c), Some(p), flee, dt, m) ==
              Frame.PreyResult(rest, RelinkSlot(rest, Some(c)), None, Flee(objects[p].position, flee, dt).dir)
  {
  }

  /** A slot step whose prey stays out of reach moves the node in the prey's slot and nothing else. */
  lemma SlotStepMoves(objects: seq<Node>, c: nat, p: nat, flee: Vec3, dt: real, m: Math)
    requires c < |objects| && p < |objects| && c != p
    requires !(SqLength(Sub(objects[c].position, Flee(objects[p].position, flee, dt).position)) < Frame.ExplodeRadiusSq)
    ensures var r := PreyStepBySlot(objects, Some(c), Some(p), flee, dt, m);
            r.prey == Some(p) && r.creeper == Some(c) && |r.objects| == |objects| &&
            r.objects[p].position == Flee(objects[p].position, flee, dt).position &&
            forall k :: 0 <= k < |objects| && k != p ==> r.objects[k] == objects[k]
  {
  }

  /**
    The stale reference. When Steve's slot s is erased, a pig reference that
    held slot s + 1 is left unchanged, but that slot now holds the node that
    followed the pig, and the pig itself has moved down to slot s.
   */
  lemma EraseShiftsPigSlot(objects: seq<Node>, creeper: Option<nat>, s: nat, flee: Vec3, dt: real, m: Math)
    requires s + 2 < |objects| && creeper.Some? && creeper.value < |objects|
    requires PreyStepBySlot(objects, creeper, Some(s), flee, dt, m).prey.None?
    ensures var r := PreyStepBySlot(objects, creeper, Some(s), flee, dt, m);
            r.objects[s] == objects[s + 1] && r.objects[s + 1] == objects[s + 2]
  {
    var r := PreyStepBySlot(objects, creeper, Some(s), flee, dt, m);
    assert r.objects[s..][0] == objects[s + 1..][0];
    assert r.objects[s..][1] == objects[s + 1..][1];
  }

  /**
    From then on the pig is frozen: a pig step through the stale slot s + 1
    never touches slot s, where the pig now is; it moves, or erases, the node
    after it instead.
   */
  lemma StalePigStepFreezesPig(objects: seq<Node>, c: nat, s: nat, flee: Vec3, dt: real, m: Math)
    requires s + 1 < |objects| && c < |objects| && c != s + 1
    ensures var r := PreyStepBySlot(objects, Some(c), Some(s + 1), flee, dt, m);
            s < |r.objects| && r.objects[s] == objects[s]
  {
    if SqLength(Sub(objects[c].position, Flee(objects[s + 1].position, flee, dt).position)) < Frame.ExplodeRadiusSq {
      SlotStepErases(objects, c, s + 1, flee, dt, m);
    } else {
      SlotStepMoves(objects, c, s + 1, flee, dt, m);
    }
  }

  /**
    Once Steve is gone, a pig step through the stale slot that brings the node
    there within the Creeper's reach erases that node and clears the pig
    reference, while the pig itself stays in the scene.
   */
  lemma StaleStepEndsGame(objects: seq<Node>, c: nat, s: nat, flee: Vec3, dt: real, m: Math)
    requires s + 1 < |objects| && c < |objects| && c != s + 1
    requires SqLength(Sub(objects[c].position, Flee(objects[s + 1].position, flee, dt).position)) < Frame.ExplodeRadiusSq
    ensures var r := PreyStepBySlot(objects, Some(c), Some(s + 1), flee, dt, m);
            r.prey.None? && s < |r.objects| && r.objects[s] == objects[s]
  {
    SlotStepErases(objects, c, s + 1, flee, dt, m);
  }

  /** The loop's test on slot references: it goes on while either prey reference is set. */
  predicate Running(w: Prey) {
    w.steve.Some? || w.pig.Some?
  }

  /** A flee step along an axis shorter than 0.8 ends within 0.8 of where it started. */
  lemma ShortStep(pos: Vec3, dir: Vec3, dt: real)
    requires 0.0 <= dt < 0.8 && AxisAligned(dir)
    ensures SqLength(Sub(pos, Flee(pos, dir, dt).position)) < Frame.ExplodeRadiusSq
  {
    var f := Flee(pos, dir, dt);
    FleeKeepsAxis(pos, dir, dt);
    if f.dir.x == 1.0 {
      assert f.position.x == pos.x + dt;
    } else {
      assert f.position.x == pos.x - dt;
    }
    SqOnAxis(Sub(pos, f.position), dt);
  }

  lemma SqOnAxis(g: Vec3, d: real)
    requires 0.0 <= d < 0.8 && g.y == 0.0 && g.z == 0.0 && (g.x == d || g.x == -d)
    ensures SqLength(g) < Frame.ExplodeRadiusSq
  {
    assert g.x * g.x == d * d;
    assert d * d <= 0.8 * d;
  }

  /** A gap of at least 0.8 in depth is out of the Creeper's reach. */
  lemma SqFar(g: Vec3)
    requires g.z <= -0.8 || 0.8 <= g.z
    ensures !(SqLength(g) < Frame.ExplodeRadiusSq)
  {
    assert g.z * g.z >= 0.64 by {
      if g.z >= 0.8 {
        assert g.z * g.z >= 0.8 * g.z;
      } else {
        assert g.z * g.z >= -0.8 * g.z;
      }
    }
    assert g.x * g.x >= 0.0 && g.y * g.y >= 0.0;
  }

  /** An axis flee keeps the depth, so a node whose depth differs by at least 0.8 from the Creeper's stays out of reach. */
  lemma OutOfReachInDepth(creeper: Vec3, pos: Vec3, dir: Vec3, dt: real)
    requires AxisAligned(dir) && (creeper.z - pos.z <= -0.8 || 0.8 <= creeper.z - pos.z)
    ensures !(SqLength(Sub(creeper, Flee(pos, dir, dt).position)) < Frame.ExplodeRadiusSq)
  {
    FleeKeepsAxis(pos, dir, dt);
    SqFar(Sub(creeper, Flee(pos, dir, dt).position));
  }

  /** The first slot named "Creeper" is the one no earlier slot shares the name with. */
  lemma CreeperSlot(ns: seq<Node>, k: nat)
    requires k < |ns| && ns[k].name == CreeperName
    requires forall j :: 0 <= j < k ==> ns[j].name != CreeperName
    ensures SlotOfName(ns, CreeperName) == Some(k)
  {
    var r := SlotOfName(ns, CreeperName);
    assert r.Some?;
  }

  /**
    The scene's tail as built: Steve in slot s, then the pig, then the sky,
    then the Creeper, the only node of that name. Steve stands at depth 6
    (he only ever flees along x) with the Creeper on him; the sky is at
    depth 0; both flee directions run along x; the frame is shorter than
    0.8 seconds.
   */
  predicate CaughtLayout(objects: seq<Node>, s: nat, steveFlee: Vec3, pigFlee: Vec3, dt: real) {
    |objects| == s + 4 &&
    (forall j :: 0 <= j < s + 3 ==> objects[j].name != CreeperName) &&
    objects[s + 3].name == CreeperName &&
    objects[s + 3].position == objects[s].position && objects[s].position.z == 6.0 &&
    objects[s + 2].position.z == 0.0 &&
    AxisAligned(steveFlee) && AxisAligned(pigFlee) && 0.0 <= dt < 0.8
  }

  /**
    The frame in which the Creeper catches Steve, on slots. Steve is erased
    and the Creeper re-bound; the pig reference keeps slot s + 1, which now
    holds the sky. So the pig's step moves the sky along the pig's flee
    direction, the pig itself, now in slot s, does not move, and the loop
    goes on as if the pig were still fleeing.
   */
  lemma CatchSteveBySlot(objects: seq<Node>, s: nat, steveFlee: Vec3, pigFlee: Vec3, dt: real, m: Math)
    requires CaughtLayout(objects, s, steveFlee, pigFlee, dt)
    ensures var r := PreyPartsBySlot(Prey(objects, Some(s + 3), Some(s), Some(s + 1)), steveFlee, pigFlee, dt, m);
            r.steve.None? && r.pig == Some(s + 1) && r.creeper == Some(s + 2) && Running(r) &&
            |r.objects| == s + 3 && r.objects[s] == objects[s + 1] &&
            r.objects[s + 1].id == objects[s + 2].id &&
            r.objects[s + 1].position == Flee(objects[s + 2].position, pigFlee, dt).position
  {
    SteveErasedBySlot(objects, s, steveFlee, dt, m);
    var rest := objects[..s] + objects[s + 1..];
    assert rest[s] == objects[s + 1] && rest[s + 1] == objects[s + 2] && rest[s + 2] == objects[s + 3];
    OutOfReachInDepth(rest[s + 2].position, rest[s + 1].position, pigFlee, dt);
    SlotStepMoves(rest, s + 2, s + 1, pigFlee, dt, m);
  }

  /** On slots, Steve's step erases slot s and re-binds the Creeper to its new slot, s + 2. */
  lemma SteveErasedBySlot(objects: seq<Node>, s: nat, steveFlee: Vec3, dt: real, m: Math)
    requires |objects| == s + 4
    requires forall j :: 0 <= j < s + 3 ==> objects[j].name != CreeperName
    requires objects[s + 3].name == CreeperName && objects[s + 3].position == objects[s].position
    requires AxisAligned(steveFlee) && 0.0 <= dt < 0.8
    ensures var r := PreyStepBySlot(objects, Some(s + 3), Some(s), steveFlee, dt, m);
            r.prey.None? && r.objects == objects[..s] + objects[s + 1..] && r.creeper == Some(s + 2)
  {
    ShortStep(objects[s].position, steveFlee, dt);
    SlotStepErases(objects, s + 3, s, steveFlee, dt, m);
    var rest := objects[..s] + objects[s + 1..];
    assert rest[s + 2] == objects[s + 3];
    forall j | 0 <= j < s + 2 ensures rest[j].name != CreeperName {
      assert rest[j] == (if j < s then objects[j] else objects[j + 1]);
    }
    CreeperSlot(rest, s + 2);
  }

  /**
    Any later frame in which the node in the stale slot lands within 0.8 of
    the Creeper (the sky, once the Creeper is walked to it) erases that node
    instead of the pig and clears the pig reference: both prey references
    are now null, so the loop stops, with the pig still in the scene.
   */
  lemma StaleGameOver(w: Prey, c: nat, s: nat, steveFlee: Vec3, pigFlee: Vec3, dt: real, m: Math)
    requires w.steve.None? && w.pig == Some(s + 1) && w.creeper == Some(c)
    requires s + 1 < |w.objects| && c < |w.objects| && c != s + 1
    requires SqLength(Sub(w.objects[c].position, Flee(w.objects[s + 1].position, pigFlee, dt).position)) < Frame.ExplodeRadiusSq
    ensures var r := PreyPartsBySlot(w, steveFlee, pigFlee, dt, m);
            !Running(r) && s < |r.objects| && r.objects[s] == w.objects[s]
  {
    StaleStepEndsGame(w.objects, c, s, pigFlee, dt, m);
  }

  /**
    The frame that catches Steve, with references by id: only Steve is
    erased, the Creeper keeps its reference, and the pig, six units behind
    the origin, flees on under its own reference while the sky stays put.
   */
  lemma CatchSteveById(objects: seq<Node>, s: nat, steveFlee: Vec3, pigFlee: Vec3, dt: real, m: Math)
    requires CaughtLayout(objects, s, steveFlee, pigFlee, dt) && UniqueIds(objects)
    requires objects[s + 1].position.z == -6.0
    ensures var st := Frame.PreyStep(objects, Some(objects[s + 3].id), Some(objects[s].id), steveFlee, dt, m);
            var p := Frame.PreyStep(st.objects, st.creeper, Some(objects[s + 1].id), pigFlee, dt, m);
            st.prey.None? && p.prey == Some(objects[s + 1].id) && |p.objects| == s + 3 &&
            p.objects[s].id == objects[s + 1].id &&
            p.objects[s].position == Flee(objects[s + 1].position, pigFlee, dt).position &&
            p.objects[s + 1] == objects[s + 2]
  {
    SteveErasedById(objects, s, steveFlee, dt, m);
    var rest := objects[..s] + objects[s + 1..];
    assert rest[s] == objects[s + 1] && rest[s + 1] == objects[s + 2] && rest[s + 2] == objects[s + 3];
    PigFleesById(rest, s, pigFlee, dt, m);
  }

  /** By id, Steve's step erases Steve alone and keeps the Creeper reference. */
  lemma SteveErasedById(objects: seq<Node>, s: nat, steveFlee: Vec3, dt: real, m: Math)
    requires |objects| == s + 4 && UniqueIds(objects)
    requires forall j :: 0 <= j < s + 3 ==> objects[j].name != CreeperName
    requires objects[s + 3].name == CreeperName && objects[s + 3].position == objects[s].position
    requires AxisAligned(steveFlee) && 0.0 <= dt < 0.8
    ensures var st := Frame.PreyStep(objects, Some(objects[s + 3].id), Some(objects[s].id), steveFlee, dt, m);
            st.prey.None? && st.objects == objects[..s] + objects[s + 1..] && st.creeper == Some(objects[s + 3].id) &&
            UniqueIds(st.objects)
  {
    IndexOfUnique(objects, s);
    IndexOfUnique(objects, s + 3);
    ShortStep(objects[s].position, steveFlee, dt);
    Frame.ExplodesWhenClose(objects, Some(objects[s + 3].id), Some(objects[s].id), steveFlee, dt, m);
    UniqueAfterSplice(objects, s);
    CreeperAfterSplice(objects, s);
  }

  /** Erasing Steve's slot leaves the Creeper the first node of its name, now one slot down. */
  lemma CreeperAfterSplice(objects: seq<Node>, s: nat)
    requires |objects| == s + 4
    requires forall j :: 0 <= j < s + 3 ==> objects[j].name != CreeperName
    requires objects[s + 3].name == CreeperName
    ensures FindByName(objects[..s] + objects[s + 1..], CreeperName) == Some(objects[s + 3].id)
  {
    var rest := objects[..s] + objects[s + 1..];
    assert rest[s + 2] == objects[s + 3];
    forall j | 0 <= j < s + 2 ensures rest[j].name != CreeperName {
      assert rest[j] == (if j < s then objects[j] else objects[j + 1]);
    }
    FindCreeperById(rest, s + 2);
  }

  /** By id, a pig twelve units deeper than the Creeper flees on and keeps its reference. */
  lemma PigFleesById(rest: seq<Node>, s: nat, pigFlee: Vec3, dt: real, m: Math)
    requires |rest| == s + 3 && UniqueIds(rest) && AxisAligned(pigFlee)
    requires rest[s].position.z == -6.0 && rest[s + 2].position.z == 6.0
    ensures var p := Frame.PreyStep(rest, Some(rest[s + 2].id), Some(rest[s].id), pigFlee, dt, m);
            p.prey == Some(rest[s].id) && |p.objects| == s + 3 && p.objects[s].id == rest[s].id &&
            p.objects[s].position == Flee(rest[s].position, pigFlee, dt).position &&
            p.objects[s + 1] == rest[s + 1]
  {
    IndexOfUnique(rest, s);
    IndexOfUnique(rest, s + 2);
    OutOfReachInDepth(rest[s + 2].position, rest[s].position, pigFlee, dt);
    Frame.KeptWhenFar(rest, Some(rest[s + 2].id), Some(rest[s].id), pigFlee, dt, m);
  }

  lemma FindCreeperById(ns: seq<Node>, k: nat)
    requires k < |ns| && ns[k].name == CreeperName
    requires forall j :: 0 <= j < k ==> ns[j].name != CreeperName
    ensures FindByName(ns, CreeperName) == Some(ns[k].id)
  {
    var r := FindByName(ns, CreeperName);
    assert r.Some?;
    var i :| 0 <= i < |ns| && ns[i].name == CreeperName && ns[i].id == r.value
             && forall j :: 0 <= j < i ==> ns[j].name != CreeperName;
    assert i <= k;
  }
}
