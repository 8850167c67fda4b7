/**
  The frame loop of the Minecraft scene as a pure step over a frame state.

  Each frame, in order: the day cycle advances and drives the ambient colour;
  the sun is placed for the time of day; the keys turn the camera; the
  Creeper walks under the arrow keys and the follow camera is placed behind
  it; Steve and then the pig flee, bouncing off the map's edges, and each is
  removed when the Creeper comes within 0.8 of it; the loop goes on while a
  prey is left and no close was requested.

  References to nodes are ids: a reference survives the removal of any other
  node, and a removed node's reference is cleared.
 */
module Frame {
  import opened Wrappers
  import opened Vectors
  import opened SceneGraph
  import opened DayCycle
  import opened Camera
  import opened Agents
  import opened MinecraftScene

  /** The Creeper explodes a prey closer than 0.8; compared squared, 0.8 * 0.8. */
  const ExplodeRadiusSq: real := 0.64
  /** The Creeper's walking speed in units per second. */
  const CreeperSpeed: real := 2.0

  /** The keys held during a frame. */
  datatype Keys = Keys(w: bool, s: bool, a: bool, d: bool, up: bool, down: bool, left: bool, right: bool)

  datatype World = World(
    objects: seq<Node>,
    creeper: Option<nat>,
    steve: Option<nat>,
    pig: Option<nat>,
    sun: Option<nat>,
    day: DayState,
    look: Look,
    cameraPos: Vec3,
    cameraFront: Vec3,
    steveFlee: Vec3,
    pigFlee: Vec3)

  const InitialCameraPos := Vec3(0.0, 1.0, 5.0)
  const InitialCameraTarget := Zero

  /**
    The frame state before the first frame: the built scene's objects and
    references, the day at its start in white, a level camera, Steve fleeing
    towards -x and the pig towards +x.
   */
  function Initial(sc: Scene, m: Math): (w: World)
    ensures w.objects == sc.objects && w.creeper == sc.creeper && w.steve == sc.steve && w.pig == sc.pig && w.sun == sc.sun
    ensures w.day.time == 0.0 && InGamut(w.day.ambient) && w.look.pitch == 0.0
    ensures AxisAligned(w.steveFlee) && AxisAligned(w.pigFlee) && w.steveFlee.x == -w.pigFlee.x
  {
    World(sc.objects, sc.creeper, sc.steve, sc.pig, sc.sun,
          DayState(0.0, White), Look(InitialYaw, 0.0),
          InitialCameraPos, m.normalize(Sub(InitialCameraTarget, InitialCameraPos)),
          Vec3(-1.0, 0.0, 0.0), Vec3(1.0, 0.0, 0.0))
  }

  // The sun.

  /** Places the referenced sun for the current time of day. */
  function PlaceSun(w: World): (r: World)
    ensures w.sun.None? ==> r == w
    ensures r.(objects := w.objects) == w && |r.objects| == |w.objects|
  {
    match w.sun
    case None => w
    case Some(s) => w.(objects := SetPositionForest(w.objects, s, SunPosition(w.day.time)))
  }

  /**
    After the sun step every node the sun reference names, at any depth, is
    at (x, 40, -20) with x the sun's sweep position for the time of day, and
    nothing else in the scene has changed.
   */
  lemma PlaceSunPositions(w: World)
    requires w.sun.Some?
    ensures var r := PlaceSun(w);
            |r.objects| == |w.objects| &&
            forall k :: 0 <= k < |w.objects| ==>
              AllAt(r.objects[k], w.sun.value, Vec3(SunX(w.day.time), SunHeight, SunDepth)) &&
              SameBut(w.objects[k], r.objects[k], w.sun.value)
  {
    SetPositionForestEffect(w.objects, w.sun.value, SunPosition(w.day.time));
  }

  // The Creeper and the follow camera.

  datatype Pose = Pose(position: Vec3, orientation: Vec3)

  /** One arrow key: if held, step along `dir` and turn to face it. */
  function Walk(p: Pose, held: bool, dir: Vec3, dt: real, m: Math): Pose {
    if held then Pose(Add(p.position, Scale(dir, dt * CreeperSpeed)), Vec3(0.0, m.atan2(dir.x, dir.z), 0.0))
    else p
  }

  /**
    The four arrow keys in the program's order, each relative to the camera's
    view direction flattened onto the ground: forward, back, left, right.
   */
  function ArrowWalk(p: Pose, front: Vec3, dt: real, keys: Keys, m: Math): (r: Pose)
    ensures !keys.up && !keys.down && !keys.left && !keys.right ==> r == p
    ensures keys.up && !keys.down && !keys.left && !keys.right ==>
              r.position == Add(p.position, Scale(m.normalize(Flatten(front)), dt * CreeperSpeed))
  {
    var forward := m.normalize(Vec3(front.x, 0.0, front.z));
    var back := m.normalize(Vec3(-front.x, 0.0, -front.z));
    var left := m.normalize(Flatten(m.normalize(Cross(Up, front))));
    var right := m.normalize(Flatten(m.normalize(Cross(front, Up))));
    var p1 := Walk(p, keys.up, forward, dt, m);
    var p2 := Walk(p1, keys.down, back, dt, m);
    var p3 := Walk(p2, keys.left, left, dt, m);
    Walk(p3, keys.right, right, dt, m)
  }

  /** Every arrow direction is horizontal, so walking never changes the Creeper's height. */
  lemma ArrowWalkKeepsHeight(p: Pose, front: Vec3, dt: real, keys: Keys, m: Math)
    requires KeepsFlat(m)
    ensures ArrowWalk(p, front, dt, keys, m).position.y == p.position.y
  {
    assert m.normalize(Vec3(front.x, 0.0, front.z)).y == 0.0;
    assert m.normalize(Vec3(-front.x, 0.0, -front.z)).y == 0.0;
    assert m.normalize(Flatten(m.normalize(Cross(Up, front)))).y == 0.0;
    assert m.normalize(Flatten(m.normalize(Cross(front, Up)))).y == 0.0;
  }

  /**
    The Creeper's part of a frame, skipped when its reference is null (or no
    longer names a node): walk under the arrow keys, recompute the view
    direction from yaw and pitch, and put the camera behind and above where
    the Creeper stood at the start of the frame.
   */
  function Chase(w: World, dt: real, keys: Keys, m: Math): (r: World)
    ensures w.creeper.None? || IndexOf(w.objects, w.creeper.value).None? ==> r == w
    ensures SameIds(w.objects, r.objects)
    ensures r.creeper == w.creeper && r.steve == w.steve && r.pig == w.pig && r.sun == w.sun
    ensures r.day == w.day && r.look == w.look && r.steveFlee == w.steveFlee && r.pigFlee == w.pigFlee
    ensures w.creeper.Some? && IndexOf(w.objects, w.creeper.value).Some? ==>
              r.cameraFront == m.normalize(Direction(m, w.look.yaw, w.look.pitch)) &&
              r.cameraPos == FollowPosition(m, Get(w.objects, w.creeper.value).position, r.cameraFront)
  {
    if w.creeper.None? || IndexOf(w.objects, w.creeper.value).None? then w
    else
      var c := w.creeper.value;
      var node := Get(w.objects, c);
      var start := node.position;
      var pose := ArrowWalk(Pose(start, node.orientation), w.cameraFront, dt, keys, m);
      var front := m.normalize(Direction(m, w.look.yaw, w.look.pitch));
      w.(objects := Place(w.objects, c, pose.position, pose.orientation),
         cameraFront := front,
         cameraPos := FollowPosition(m, start, front))
  }

  /**
    The follow camera is exactly 3 units above the Creeper after it walked,
    and the Creeper's height is unchanged by walking.
   */
  lemma FollowCameraAboveCreeper(w: World, dt: real, keys: Keys, m: Math)
    requires KeepsFlat(m)
    requires w.creeper.Some? && IndexOf(w.objects, w.creeper.value).Some?
    ensures var r := Chase(w, dt, keys, m);
            var c := w.creeper.value;
            IndexOf(r.objects, c).Some? &&
            Get(r.objects, c).position.y == Get(w.objects, c).position.y &&
            r.cameraPos.y == Get(r.objects, c).position.y + FollowUp
  {
    var c := w.creeper.value;
    var node := Get(w.objects, c);
    var pose := ArrowWalk(Pose(node.position, node.orientation), w.cameraFront, dt, keys, m);
    ArrowWalkKeepsHeight(Pose(node.position, node.orientation), w.cameraFront, dt, keys, m);
    PlaceEffect(w.objects, c, pose.position, pose.orientation);
  }

  // Steve and the pig.

  datatype PreyResult = PreyResult(objects: seq<Node>, creeper: Option<nat>, prey: Option<nat>, flee: Vec3)

  /** The Creeper reference re-bound to the first node named "Creeper", if any; otherwise left as it was. */
  function Relink(objects: seq<Node>, creeper: Option<nat>): (r: Option<nat>)
    ensures (exists i :: 0 <= i < |objects| && objects[i].name == CreeperName) ==>
              exists i :: 0 <= i < |objects| && objects[i].name == CreeperName && r == Some(objects[i].id) &&
                          forall j :: 0 <= j < i ==> objects[j].name != CreeperName
    ensures (forall i :: 0 <= i < |objects| ==> objects[i].name != CreeperName) ==> r == creeper
  {
    match FindByName(objects, CreeperName)
    case Some(id) => Some(id)
    case None => creeper
  }

  /**
    One prey's part of a frame, skipped unless both the Creeper and the prey
    are referenced: the prey flees one step, bouncing off the map's edges and
    turning to face its direction; if the Creeper is then closer than 0.8, the
    prey is erased from the object list, its reference cleared and the
    Creeper's reference re-bound by name.
   */
  function PreyStep(objects: seq<Node>, creeper: Option<nat>, prey: Option<nat>, flee: Vec3, dt: real, m: Math)
    : (r: PreyResult)
    ensures creeper.None? || prey.None? ==> r == PreyResult(objects, creeper, prey, flee)
    ensures r.prey.Some? ==> r.prey == prey
    ensures |r.objects| <= |objects|
  {
    if creeper.None? || prey.None? then PreyResult(objects, creeper, prey, flee)
    else if IndexOf(objects, prey.value).None? || IndexOf(objects, creeper.value).None? then
      PreyResult(objects, creeper, prey, flee)
    else
      var mv := Flee(Get(objects, prey.value).position, flee, dt);
      var moved := Place(objects, prey.value, mv.position, Vec3(0.0, m.atan2(mv.dir.x, mv.dir.z), 0.0));
      IndexOfSameIds(objects, moved, creeper.value);
      var gap := Sub(Get(moved, creeper.value).position, mv.position);
      if SqLength(gap) < ExplodeRadiusSq then
        var rest := RemoveById(moved, prey.value);
        PreyResult(rest, Relink(rest, creeper), None, mv.dir)
      else
        PreyResult(moved, creeper, prey, mv.dir)
  }

  /**
    Removal happens only below the radius. With the Creeper and the prey two
    distinct nodes of a list with unique ids: closer than 0.8 after the prey's
    step, exactly the prey is erased, the others keep their order, the count
    drops by one, the prey reference is cleared and the Creeper reference is
    re-bound by name; otherwise nothing is erased, the references are kept and
    only the prey's slot changes, to its new position.
   */
  lemma ExplodesOnlyWithinRadius(objects: seq<Node>, creeper: Option<nat>, prey: Option<nat>, flee: Vec3, dt: real, m: Math)
    requires UniqueIds(objects) && creeper.Some? && prey.Some? && creeper.value != prey.value
    requires IndexOf(objects, creeper.value).Some? && IndexOf(objects, prey.value).Some?
    ensures var i := IndexOf(objects, prey.value).value;
            var mv := Flee(objects[i].position, flee, dt);
            var close := SqLength(Sub(Get(objects, creeper.value).position, mv.position)) < ExplodeRadiusSq;
            var r := PreyStep(objects, creeper, prey, flee, dt, m);
            r.flee == mv.dir &&
            (close ==> r.objects == objects[..i] + objects[i + 1..] && |r.objects| == |objects| - 1 &&
                       r.prey.None? && r.creeper == Relink(r.objects, creeper)) &&
            (!close ==> r.prey == prey && r.creeper == creeper && |r.objects| == |objects| &&
                        r.objects[i].position == mv.position &&
                        forall k :: 0 <= k < |objects| && k != i ==> r.objects[k] == objects[k])
  {
    var i := IndexOf(objects, prey.value).value;
    var mv := Flee(objects[i].position, flee, dt);
    if SqLength(Sub(Get(objects, creeper.value).position, mv.position)) < ExplodeRadiusSq {
      ExplodesWhenClose(objects, creeper, prey, flee, dt, m);
    } else {
      KeptWhenFar(objects, creeper, prey, flee, dt, m);
    }
  }

  lemma ExplodesWhenClose(objects: seq<Node>, creeper: Option<nat>, prey: Option<nat>, flee: Vec3, dt: real, m: Math)
    requires UniqueIds(objects) && creeper.Some? && prey.Some? && creeper.value != prey.value
    requires IndexOf(objects, creeper.value).Some? && IndexOf(objects, prey.value).Some?
    requires var mv := Flee(objects[IndexOf(objects, prey.value).value].position, flee, dt);
             SqLength(Sub(Get(objects, creeper.value).position, mv.position)) < ExplodeRadiusSq
    ensures var i := IndexOf(objects, prey.value).value;
            var r := PreyStep(objects, creeper, prey, flee, dt, m);
            r.flee == Flee(objects[i].position, flee, dt).dir &&
            r.objects == objects[..i] + objects[i + 1..] && |r.objects| == |objects| - 1 &&
            r.prey.None? && r.creeper == Relink(r.objects, creeper)
  {
    var i := IndexOf(objects, prey.value).value;
    var mv := Flee(objects[i].position, flee, dt);
    var o := Vec3(0.0, m.atan2(mv.dir.x, mv.dir.z), 0.0);
    PreyStepUnfold(objects, creeper, prey, flee, dt, m);
    RemovedIsSplice(objects, prey.value, i, mv.position, o);
  }

  lemma KeptWhenFar(objects: seq<Node>, creeper: Option<nat>, prey: Option<nat>, flee: Vec3, dt: real, m: Math)
    requires UniqueIds(objects) && creeper.Some? && prey.Some? && creeper.value != prey.value
    requires IndexOf(objects, creeper.value).Some? && IndexOf(objects, prey.value).Some?
    requires var mv := Flee(objects[IndexOf(objects, prey.value).value].position, flee, dt);
             !(SqLength(Sub(Get(objects, creeper.value).position, mv.position)) < ExplodeRadiusSq)
    ensures var i := IndexOf(objects, prey.value).value;
            var mv := Flee(objects[i].position, flee, dt);
            var r := PreyStep(objects, creeper, prey, flee, dt, m);
            r.flee == mv.dir && r.prey == prey && r.creeper == creeper && |r.objects| == |objects| &&
            r.objects[i].position == mv.position &&
            forall k :: 0 <= k < |objects| && k != i ==> r.objects[k] == objects[k]
  {
    var i := IndexOf(objects, prey.value).value;
    PreyStepUnfold(objects, creeper, prey, flee, dt, m);
    forall k | 0 <= k < |objects| && k != i
      ensures objects[k].id != prey.value
    {
    }
  }

  lemma PreyStepUnfold(objects: seq<Node>, creeper: Option<nat>, prey: Option<nat>, flee: Vec3, dt: real, m: Math)
    requires UniqueIds(objects) && creeper.Some? && prey.Some? && creeper.value != prey.value
    requires IndexOf(objects, creeper.value).Some? && IndexOf(objects, prey.value).Some?
    ensures var i := IndexOf(objects, prey.value).value;
            var mv := Flee(objects[i].position, flee, dt);
            var o := Vec3(0.0, m.atan2(mv.dir.x, mv.dir.z), 0.0);
            var moved := Place(objects, prey.value, mv.position, o);
            var close := SqLength(Sub(Get(objects, creeper.value).position, mv.position)) < ExplodeRadiusSq;
            var r := PreyStep(objects, creeper, prey, flee, dt, m);
            (close ==> r == PreyResult(RemoveById(moved, prey.value), Relink(RemoveById(moved, prey.value), creeper), None, mv.dir)) &&
            (!close ==> r == PreyResult(moved, creeper, prey, mv.dir))
  {
    var i := IndexOf(objects, prey.value).value;
    var mv := Flee(objects[i].position, flee, dt);
    var o := Vec3(0.0, m.atan2(mv.dir.x, mv.dir.z), 0.0);
    PlaceEffect(objects, prey.value, mv.position, o);
  }

  lemma RemovedIsSplice(objects: seq<Node>, id: nat, i: nat, p: Vec3, o: Vec3)
    requires UniqueIds(objects) && i < |objects| && objects[i].id == id
    ensures RemoveById(Place(objects, id, p, o), id) == objects[..i] + objects[i + 1..]
  {
    var moved := Place(objects, id, p, o);
    PlaceUnique(objects, id, p, o);
    RemoveSplices(moved, id, i);
    PlaceOutside(objects, id, i, p, o);
  }

  lemma PlaceUnique(ns: seq<Node>, id: nat, p: Vec3, o: Vec3)
    requires UniqueIds(ns)
    ensures UniqueIds(Place(ns, id, p, o))
  {
  }

  /** Outside the placed node's slot the list is unchanged. */
  lemma PlaceOutside(ns: seq<Node>, id: nat, i: nat, p: Vec3, o: Vec3)
    requires UniqueIds(ns) && i < |ns| && ns[i].id == id
    ensures var r := Place(ns, id, p, o); r[..i] == ns[..i] && r[i + 1..] == ns[i + 1..]
  {
    var r := Place(ns, id, p, o);
    assert forall k :: 0 <= k < |ns| && k != i ==> r[k] == ns[k];
  }

  /** Place: the named node takes the new pose, every other node is untouched. */
  lemma PlaceEffect(ns: seq<Node>, id: nat, p: Vec3, o: Vec3)
    requires IndexOf(ns, id).Some?
    ensures var r := Place(ns, id, p, o);
            SameIds(ns, r) && (UniqueIds(ns) ==> UniqueIds(r)) &&
            IndexOf(r, id) == IndexOf(ns, id) &&
            Get(r, id) == Get(ns, id).(position := p, orientation := o) &&
            forall x :: x != id ==> IndexOf(r, x) == IndexOf(ns, x) &&
                                    (IndexOf(ns, x).Some? ==> Get(r, x) == Get(ns, x))
  {
    var r := Place(ns, id, p, o);
    IndexOfSameIds(ns, r, id);
    forall x | x != id
      ensures IndexOf(r, x) == IndexOf(ns, x) && (IndexOf(ns, x).Some? ==> Get(r, x) == Get(ns, x))
    {
      IndexOfSameIds(ns, r, x);
    }
  }

  /** `b` keeps every node of `a` except the one with id `except`, and adds none. */
  ghost predicate KeepsOthers(a: seq<Node>, b: seq<Node>, except: nat) {
    UniqueIds(b) &&
    (forall x :: x != except && IndexOf(a, x).Some? ==> IndexOf(b, x).Some? && Get(b, x) == Get(a, x)) &&
    (forall x :: IndexOf(a, x).None? ==> IndexOf(b, x).None?)
  }

  lemma SpliceKeepsOthers(ns: seq<Node>, i: nat)
    requires UniqueIds(ns) && i < |ns|
    ensures KeepsOthers(ns, ns[..i] + ns[i + 1..], ns[i].id)
  {
    var r := ns[..i] + ns[i + 1..];
    UniqueAfterSplice(ns, i);
    forall x | x != ns[i].id && IndexOf(ns, x).Some?
      ensures IndexOf(r, x).Some? && Get(r, x) == Get(ns, x)
    {
      var j := IndexOf(ns, x).value;
      var j' := if j < i then j else j - 1;
      assert r[j'] == ns[j];
      IndexOfUnique(r, j');
    }
    forall x | IndexOf(r, x).Some?
      ensures IndexOf(ns, x).Some?
    {
      var j' := IndexOf(r, x).value;
      var j := if j' < i then j' else j' + 1;
      assert ns[j] == r[j'];
    }
  }

  /**
    A prey step keeps every other node where it was: a reference to any node
    but the prey, such as the other prey's, still names the same node
    afterwards, and no node is added.
   */
  lemma PreyStepKeepsOthers(objects: seq<Node>, creeper: Option<nat>, prey: Option<nat>, flee: Vec3, dt: real, m: Math)
    requires UniqueIds(objects) && prey.Some?
    requires creeper.Some? && IndexOf(objects, creeper.value).Some? ==> creeper.value != prey.value
    ensures KeepsOthers(objects, PreyStep(objects, creeper, prey, flee, dt, m).objects, prey.value)
  {
    if creeper.None? || IndexOf(objects, prey.value).None? || IndexOf(objects, creeper.value).None? {
      assert KeepsOthers(objects, objects, prey.value);
    } else {
      var i := IndexOf(objects, prey.value).value;
      var mv := Flee(objects[i].position, flee, dt);
      var o := Vec3(0.0, m.atan2(mv.dir.x, mv.dir.z), 0.0);
      PreyStepUnfold(objects, creeper, prey, flee, dt, m);
      if SqLength(Sub(Get(objects, creeper.value).position, mv.position)) < ExplodeRadiusSq {
        ExplodesWhenClose(objects, creeper, prey, flee, dt, m);
        SpliceKeepsOthers(objects, i);
      } else {
        PlaceKeepsOthers(objects, prey.value, mv.position, o);
      }
    }
  }

  lemma PlaceKeepsOthers(ns: seq<Node>, id: nat, p: Vec3, o: Vec3)
    requires UniqueIds(ns) && IndexOf(ns, id).Some?
    ensures KeepsOthers(ns, Place(ns, id, p, o), id)
  {
    PlaceEffect(ns, id, p, o);
  }


  // The references and the frame state's invariant.

  /** The reference, when set, names a node of the list that is called "Creeper". */
  ghost predicate CreeperRef(ns: seq<Node>, r: Option<nat>) {
    r.Some? ==> IndexOf(ns, r.value).Some? && Get(ns, r.value).name == CreeperName
  }

  /** The reference, when set, names a node of the list not called "Creeper". */
  ghost predicate PreyRef(ns: seq<Node>, r: Option<nat>) {
    r.Some? ==> IndexOf(ns, r.value).Some? && Get(ns, r.value).name != CreeperName
  }

  /**
    The facts about the object list and the references that every frame
    keeps: unique ids; each set reference names a node of the right kind; the
    two prey are different nodes; the sun is not a top-level object.
   */
  ghost predicate ListInv(objects: seq<Node>, creeper: Option<nat>, steve: Option<nat>, pig: Option<nat>, sun: Option<nat>) {
    UniqueIds(objects) &&
    CreeperRef(objects, creeper) && PreyRef(objects, steve) && PreyRef(objects, pig) &&
    (steve.Some? && pig.Some? ==> steve.value != pig.value) &&
    (sun.Some? ==> IndexOf(objects, sun.value).None?)
  }

  /**
    What holds of every frame state from the first frame on: the list facts;
    the time of day in [0, 90) and the ambient colour in the keyframes' gamut;
    the pitch within 89 degrees; both flee directions unit x directions;
    each prey reference pinned to its prey's id.
   */
  ghost predicate Inv(w: World) {
    ListInv(w.objects, w.creeper, w.steve, w.pig, w.sun) &&
    0.0 <= w.day.time < CycleLength && InGamut(w.day.ambient) &&
    -MaxPitch <= w.look.pitch <= MaxPitch &&
    AxisAligned(w.steveFlee) && AxisAligned(w.pigFlee) &&
    Pinned(w.objects, w.steve, SteveId) && Pinned(w.objects, w.pig, PigId)
  }

  /**
    A prey reference is pinned to its prey's id: when set it is that id,
    and when cleared no node with that id is left in the list.
   */
  ghost predicate Pinned(ns: seq<Node>, r: Option<nat>, id: nat) {
    (r.Some? ==> r.value == id) && (r.None? ==> IndexOf(ns, id).None?)
  }

  /** The set prey references name nodes standing on the map. */
  ghost predicate PreyOnMap(w: World) {
    OnMapRef(w.objects, w.steve) && OnMapRef(w.objects, w.pig)
  }

  ghost predicate OnMapRef(ns: seq<Node>, r: Option<nat>) {
    r.Some? ==> IndexOf(ns, r.value).Some? && OnMap(Get(ns, r.value).position.x) && OnMap(Get(ns, r.value).position.z)
  }

  lemma KeepsOthersRefs(a: seq<Node>, b: seq<Node>, except: nat, r: Option<nat>)
    requires KeepsOthers(a, b, except) && (r.Some? ==> r.value != except)
    ensures CreeperRef(a, r) ==> CreeperRef(b, r)
    ensures PreyRef(a, r) ==> PreyRef(b, r)
    ensures OnMapRef(a, r) ==> OnMapRef(b, r)
  {
  }

  /** After a prey step the Creeper reference again names a node called "Creeper". */
  lemma PreyStepCreeper(objects: seq<Node>, creeper: Option<nat>, prey: Option<nat>, flee: Vec3, dt: real, m: Math)
    requires UniqueIds(objects) && CreeperRef(objects, creeper) && PreyRef(objects, prey) && prey.Some?
    ensures CreeperRef(PreyStep(objects, creeper, prey, flee, dt, m).objects, PreyStep(objects, creeper, prey, flee, dt, m).creeper)
  {
    var r := PreyStep(objects, creeper, prey, flee, dt, m);
    PreyStepKeepsOthers(objects, creeper, prey, flee, dt, m);
    if r.creeper != creeper {
      var c := r.creeper.value;
      assert FindByName(r.objects, CreeperName) == Some(c);
      var i :| 0 <= i < |r.objects| && r.objects[i].name == CreeperName && r.objects[i].id == c;
      IndexOfUnique(r.objects, i);
    } else {
      KeepsOthersRefs(objects, r.objects, prey.value, creeper);
    }
  }

  /** The prey's own reference after its step: cleared, or still naming it, now further along its flight. */
  lemma PreyStepOwnRef(objects: seq<Node>, creeper: Option<nat>, prey: Option<nat>, flee: Vec3, dt: real, m: Math)
    requires UniqueIds(objects) && CreeperRef(objects, creeper) && PreyRef(objects, prey)
    ensures var r := PreyStep(objects, creeper, prey, flee, dt, m);
            PreyRef(r.objects, r.prey) &&
            (r.prey.Some? && creeper.Some? ==>
               Get(r.objects, r.prey.value).position == Flee(Get(objects, prey.value).position, flee, dt).position) &&
            (creeper.Some? && prey.Some? ==> r.flee == Flee(Get(objects, prey.value).position, flee, dt).dir) &&
            (creeper.None? || prey.None? ==> r.prey == prey && r.objects == objects && r.flee == flee)
  {
    var r := PreyStep(objects, creeper, prey, flee, dt, m);
    if creeper.Some? && prey.Some? {
      var mv := Flee(Get(objects, prey.value).position, flee, dt);
      var o := Vec3(0.0, m.atan2(mv.dir.x, mv.dir.z), 0.0);
      PlaceEffect(objects, prey.value, mv.position, o);
    }
  }

  /** A prey step keeps the list facts, with the stepping prey in the place of `prey` and the other untouched. */
  lemma PreyStepKeepsList(objects: seq<Node>, creeper: Option<nat>, prey: Option<nat>, other: Option<nat>, sun: Option<nat>,
                          flee: Vec3, dt: real, m: Math)
    requires ListInv(objects, creeper, prey, other, sun)
    ensures var r := PreyStep(objects, creeper, prey, flee, dt, m);
            ListInv(r.objects, r.creeper, r.prey, other, sun)
  {
    var r := PreyStep(objects, creeper, prey, flee, dt, m);
    PreyStepOwnRef(objects, creeper, prey, flee, dt, m);
    if prey.Some? {
      PreyStepKeepsOthers(objects, creeper, prey, flee, dt, m);
      PreyStepCreeper(objects, creeper, prey, flee, dt, m);
      KeepsOthersRefs(objects, r.objects, prey.value, other);
    }
  }

  /** A prey step leaves the other prey where it stood. */
  lemma PreyStepOtherStays(objects: seq<Node>, creeper: Option<nat>, prey: Option<nat>, other: Option<nat>,
                           flee: Vec3, dt: real, m: Math)
    requires UniqueIds(objects) && CreeperRef(objects, creeper) && PreyRef(objects, prey)
    requires prey.Some? && other.Some? ==> prey.value != other.value
    ensures OnMapRef(objects, other) ==> OnMapRef(PreyStep(objects, creeper, prey, flee, dt, m).objects, other)
  {
    if prey.Some? {
      PreyStepKeepsOthers(objects, creeper, prey, flee, dt, m);
      KeepsOthersRefs(objects, PreyStep(objects, creeper, prey, flee, dt, m).objects, prey.value, other);
    }
  }

  /** A prey step keeps the flee direction a unit x direction. */
  lemma PreyStepKeepsAxis(objects: seq<Node>, creeper: Option<nat>, prey: Option<nat>, flee: Vec3, dt: real, m: Math)
    requires UniqueIds(objects) && CreeperRef(objects, creeper) && PreyRef(objects, prey)
    requires AxisAligned(flee)
    ensures AxisAligned(PreyStep(objects, creeper, prey, flee, dt, m).flee)
  {
    PreyStepOwnRef(objects, creeper, prey, flee, dt, m);
    if prey.Some? && creeper.Some? {
      FleeKeepsAxis(Get(objects, prey.value).position, flee, dt);
    }
  }

  /** With a frame of at most 50 seconds, a prey step keeps a prey that stood on the map on it. */
  lemma PreyStepStaysOnMap(objects: seq<Node>, creeper: Option<nat>, prey: Option<nat>, flee: Vec3, dt: real, m: Math)
    requires UniqueIds(objects) && CreeperRef(objects, creeper) && PreyRef(objects, prey)
    requires AxisAligned(flee) && OnMapRef(objects, prey) && 0.0 <= dt <= 50.0
    ensures OnMapRef(PreyStep(objects, creeper, prey, flee, dt, m).objects, PreyStep(objects, creeper, prey, flee, dt, m).prey)
  {
    var r := PreyStep(objects, creeper, prey, flee, dt, m);
    PreyStepOwnRef(objects, creeper, prey, flee, dt, m);
    if r.prey.Some? && creeper.Some? {
      var pos := Get(objects, prey.value).position;
      FleeAxisStaysOnMap(pos, flee, dt);
      assert Get(r.objects, r.prey.value).position == Flee(pos, flee, dt).position;
    }
  }

  /** A prey step that clears the prey's reference has erased the prey from the list. */
  lemma PreyStepClears(objects: seq<Node>, creeper: Option<nat>, prey: Option<nat>, flee: Vec3, dt: real, m: Math)
    requires UniqueIds(objects) && CreeperRef(objects, creeper) && PreyRef(objects, prey) && prey.Some?
    ensures var r := PreyStep(objects, creeper, prey, flee, dt, m);
            r.prey.None? ==> IndexOf(r.objects, prey.value).None?
  {
    var r := PreyStep(objects, creeper, prey, flee, dt, m);
    if r.prey.None? {
      PreyStepUnfold(objects, creeper, prey, flee, dt, m);
      var i := IndexOf(objects, prey.value).value;
      var mv := Flee(objects[i].position, flee, dt);
      var o := Vec3(0.0, m.atan2(mv.dir.x, mv.dir.z), 0.0);
      var rest := RemoveById(Place(objects, prey.value, mv.position, o), prey.value);
      assert r.objects == rest;
    }
  }

  /** A prey step keeps both prey references pinned to their ids. */
  lemma PreyStepPins(objects: seq<Node>, creeper: Option<nat>, prey: Option<nat>, id: nat, other: Option<nat>, otherId: nat,
                     flee: Vec3, dt: real, m: Math)
    requires UniqueIds(objects) && CreeperRef(objects, creeper) && PreyRef(objects, prey)
    requires Pinned(objects, prey, id) && Pinned(objects, other, otherId)
    ensures var r := PreyStep(objects, creeper, prey, flee, dt, m);
            Pinned(r.objects, r.prey, id) && Pinned(r.objects, other, otherId)
  {
    if prey.Some? {
      PreyStepKeepsOthers(objects, creeper, prey, flee, dt, m);
      PreyStepClears(objects, creeper, prey, flee, dt, m);
    }
  }

  // The whole frame.

  /** The day cycle advanced and the sun placed for the new time of day. */
  function Daylight(w: World, dt: real): World {
    PlaceSun(w.(day := Advance(w.day, dt)))
  }

  function Steer(w: World, dt: real, keys: Keys): World {
    w.(look := Turn(w.look, dt, keys.w, keys.s, keys.a, keys.d))
  }

  function StevePart(w: World, dt: real, m: Math): World {
    var s := PreyStep(w.objects, w.creeper, w.steve, w.steveFlee, dt, m);
    w.(objects := s.objects, creeper := s.creeper, steve := s.prey, steveFlee := s.flee)
  }

  function PigPart(w: World, dt: real, m: Math): World {
    var p := PreyStep(w.objects, w.creeper, w.pig, w.pigFlee, dt, m);
    w.(objects := p.objects, creeper := p.creeper, pig := p.prey, pigFlee := p.flee)
  }

  /**
    One frame of the loop for the frame time `dt` and the held keys: the day
    advances and the camera turns exactly as their own steps say, the sun
    reference is kept, a prey reference is only ever kept or cleared, and no
    node is added.
   */
  function Step(w: World, dt: real, keys: Keys, m: Math): (r: World)
    ensures r.day == Advance(w.day, dt) && r.look == Turn(w.look, dt, keys.w, keys.s, keys.a, keys.d)
    ensures r.sun == w.sun
    ensures (r.steve.None? || r.steve == w.steve) && (r.pig.None? || r.pig == w.pig)
    ensures |r.objects| <= |w.objects|
  {
    PigPart(StevePart(Chase(Steer(Daylight(w, dt), dt, keys), dt, keys, m), dt, m), dt, m)
  }

  datatype Outcome = Outcome(world: World, running: bool)

  /**
    One pass of the loop: the frame is stepped even when a close was
    requested during it; the loop then goes on exactly when no close was
    requested and some prey is still referenced. From any state the program
    reaches, that is: the loop stops exactly when a close was requested or
    neither Steve nor the pig is left in the scene.
   */
  function Tick(w: World, dt: real, keys: Keys, closeRequested: bool, m: Math): (r: Outcome)
    ensures r.world == Step(w, dt, keys, m)
    ensures r.running <==> !closeRequested && (r.world.steve.Some? || r.world.pig.Some?)
    ensures Inv(w) && 0.0 <= dt ==>
              Inv(r.world) &&
              (!r.running <==> closeRequested || (IndexOf(r.world.objects, SteveId).None? && IndexOf(r.world.objects, PigId).None?))
  {
    var w' := Step(w, dt, keys, m);
    assert Inv(w) && 0.0 <= dt ==> Inv(w') by {
      if Inv(w) && 0.0 <= dt {
        StepKeepsInv(w, dt, keys, m);
      }
    }
    Outcome(w', !closeRequested && !(w'.steve.None? && w'.pig.None?))
  }

  /** What the loop sees of one frame: its length, the held keys, and whether the window was closed. */
  datatype Input = Input(dt: real, keys: Keys, closeRequested: bool)

  /** The loop run over a sequence of frames, stopping at the first frame after which it does not go on. */
  function Run(w: World, inputs: seq<Input>, m: Math): (r: Outcome)
    decreases |inputs|
  {
    if |inputs| == 0 then Outcome(w, true)
    else
      var o := Tick(w, inputs[0].dt, inputs[0].keys, inputs[0].closeRequested, m);
      if o.running then Run(o.world, inputs[1..], m) else o
  }

  /**
    The loop keeps the invariant over any run of frames with non-negative
    lengths, and it only stops after a frame whose close was requested or
    after which neither Steve nor the pig is left in the scene.
   */
  lemma {:induction false} RunKeepsInv(w: World, inputs: seq<Input>, m: Math)
    requires Inv(w)
    requires forall i :: 0 <= i < |inputs| ==> 0.0 <= inputs[i].dt
    ensures var r := Run(w, inputs, m);
            Inv(r.world) &&
            (!r.running ==> (exists i :: 0 <= i < |inputs| && inputs[i].closeRequested) ||
                            (IndexOf(r.world.objects, SteveId).None? && IndexOf(r.world.objects, PigId).None?))
    decreases |inputs|
  {
    if |inputs| > 0 {
      var o := Tick(w, inputs[0].dt, inputs[0].keys, inputs[0].closeRequested, m);
      if o.running {
        RunKeepsInv(o.world, inputs[1..], m);
        var r := Run(o.world, inputs[1..], m);
        if !r.running && exists i :: 0 <= i < |inputs[1..]| && inputs[1..][i].closeRequested {
          var i :| 0 <= i < |inputs[1..]| && inputs[1..][i].closeRequested;
          assert inputs[1..][i] == inputs[i + 1];
        }
      }
    }
  }

  /**
    The program from its start: the scene built, then the loop run over the
    frames. Whenever the loop has stopped, a close was requested or both
    Steve and the pig are gone from the scene.
   */
  method Play(m: Math, inputs: seq<Input>) returns (o: Outcome)
    requires forall i :: 0 <= i < |inputs| ==> 0.0 <= inputs[i].dt
    ensures Inv(o.world)
    ensures !o.running ==> (exists i :: 0 <= i < |inputs| && inputs[i].closeRequested) ||
                           (IndexOf(o.world.objects, SteveId).None? && IndexOf(o.world.objects, PigId).None?)
  {
    var w := Start(m);
    o := Run(w, inputs, m);
    RunKeepsInv(w, inputs, m);
  }

  /** A prey once removed stays removed, and neither prey is chased while the Creeper reference is null. */
  lemma RemovedStaysRemoved(w: World, dt: real, keys: Keys, m: Math)
    ensures w.steve.None? ==> Step(w, dt, keys, m).steve.None?
    ensures w.pig.None? ==> Step(w, dt, keys, m).pig.None?
    ensures w.creeper.None? ==> Step(w, dt, keys, m).steve == w.steve && Step(w, dt, keys, m).pig == w.pig
  {
    var w3 := Chase(Steer(Daylight(w, dt), dt, keys), dt, keys, m);
    assert w3.steve == w.steve && w3.pig == w.pig && w3.creeper == w.creeper;
    var w4 := StevePart(w3, dt, m);
    assert w4.pig == w.pig;
    assert w.creeper.None? ==> w4.creeper.None? && w4.steve == w.steve;
  }

  /** Lists that agree slot by slot on ids, names and positions agree on the reference facts. */
  lemma SameRootsRefs(a: seq<Node>, b: seq<Node>, r: Option<nat>)
    requires SameRoots(a, b)
    ensures SameIds(a, b)
    ensures UniqueIds(a) ==> UniqueIds(b)
    ensures CreeperRef(a, r) ==> CreeperRef(b, r)
    ensures PreyRef(a, r) ==> PreyRef(b, r)
    ensures OnMapRef(a, r) ==> OnMapRef(b, r)
    ensures r.Some? ==> IndexOf(a, r.value) == IndexOf(b, r.value)
  {
    if r.Some? {
      IndexOfSameIds(a, b, r.value);
    }
  }

  lemma DaylightKeeps(w: World, dt: real)
    requires Inv(w) && 0.0 <= dt
    ensures Inv(Daylight(w, dt))
    ensures PreyOnMap(w) ==> PreyOnMap(Daylight(w, dt))
  {
    var w0 := w.(day := Advance(w.day, dt));
    AdvanceKeepsCycle(w.day, dt);
    var w1 := PlaceSun(w0);
    if w.sun.Some? {
      SetPositionForestEffect(w0.objects, w.sun.value, SunPosition(w0.day.time));
    }
    SameRootsRefs(w0.objects, w1.objects, w.creeper);
    SameRootsRefs(w0.objects, w1.objects, w.steve);
    SameRootsRefs(w0.objects, w1.objects, w.pig);
    SameRootsRefs(w0.objects, w1.objects, w.sun);
    IndexOfSameIds(w0.objects, w1.objects, SteveId);
    IndexOfSameIds(w0.objects, w1.objects, PigId);
  }

  /** The Creeper's step keeps the invariant and moves no prey. */
  lemma ChaseKeeps(w: World, dt: real, keys: Keys, m: Math)
    requires Inv(w)
    ensures Inv(Chase(w, dt, keys, m))
    ensures PreyOnMap(w) ==> PreyOnMap(Chase(w, dt, keys, m))
  {
    if w.creeper.Some? && IndexOf(w.objects, w.creeper.value).Some? {
      var c := w.creeper.value;
      var node := Get(w.objects, c);
      var pose := ArrowWalk(Pose(node.position, node.orientation), w.cameraFront, dt, keys, m);
      PlaceEffect(w.objects, c, pose.position, pose.orientation);
    }
    IndexOfSameIds(w.objects, Chase(w, dt, keys, m).objects, SteveId);
    IndexOfSameIds(w.objects, Chase(w, dt, keys, m).objects, PigId);
  }

  lemma StevePartKeeps(w: World, dt: real, m: Math)
    requires Inv(w)
    ensures Inv(StevePart(w, dt, m))
    ensures PreyOnMap(w) && 0.0 <= dt <= 50.0 ==> PreyOnMap(StevePart(w, dt, m))
  {
    PreyStepKeepsList(w.objects, w.creeper, w.steve, w.pig, w.sun, w.steveFlee, dt, m);
    PreyStepKeepsAxis(w.objects, w.creeper, w.steve, w.steveFlee, dt, m);
    if PreyOnMap(w) && 0.0 <= dt <= 50.0 {
      PreyStepStaysOnMap(w.objects, w.creeper, w.steve, w.steveFlee, dt, m);
    }
    PreyStepOtherStays(w.objects, w.creeper, w.steve, w.pig, w.steveFlee, dt, m);
    PreyStepPins(w.objects, w.creeper, w.steve, SteveId, w.pig, PigId, w.steveFlee, dt, m);
  }

  lemma PigPartKeeps(w: World, dt: real, m: Math)
    requires Inv(w)
    ensures Inv(PigPart(w, dt, m))
    ensures PreyOnMap(w) && 0.0 <= dt <= 50.0 ==> PreyOnMap(PigPart(w, dt, m))
  {
    PreyStepKeepsList(w.objects, w.creeper, w.pig, w.steve, w.sun, w.pigFlee, dt, m);
    PreyStepKeepsAxis(w.objects, w.creeper, w.pig, w.pigFlee, dt, m);
    if PreyOnMap(w) && 0.0 <= dt <= 50.0 {
      PreyStepStaysOnMap(w.objects, w.creeper, w.pig, w.pigFlee, dt, m);
    }
    PreyStepOtherStays(w.objects, w.creeper, w.pig, w.steve, w.pigFlee, dt, m);
    PreyStepPins(w.objects, w.creeper, w.pig, PigId, w.steve, SteveId, w.pigFlee, dt, m);
  }

  /**
    Every frame with a non-negative frame time keeps the invariant; a frame
    of at most 50 seconds also keeps Steve and the pig on the map.
   */
  lemma StepKeepsInv(w: World, dt: real, keys: Keys, m: Math)
    requires Inv(w) && 0.0 <= dt
    ensures Inv(Step(w, dt, keys, m))
    ensures PreyOnMap(w) && dt <= 50.0 ==> PreyOnMap(Step(w, dt, keys, m))
  {
    var w1 := Daylight(w, dt);
    DaylightKeeps(w, dt);
    var w2 := Steer(w1, dt, keys);
    var w3 := Chase(w2, dt, keys, m);
    ChaseKeeps(w2, dt, keys, m);
    var w4 := StevePart(w3, dt, m);
    StevePartKeeps(w3, dt, m);
    PigPartKeeps(w4, dt, m);
  }

  /** The program's start: the scene built, the invariant holding and both prey on the map. */
  method Start(m: Math) returns (w: World)
    ensures Inv(w) && PreyOnMap(w)
    ensures w.creeper.Some? && w.steve.Some? && w.pig.Some? && w.sun.Some?
    ensures w.day == DayState(0.0, White)
  {
    var sc := BuildScene();
    w := Initial(sc, m);
    InitialInv(sc, m);
  }

  /** The scene's layout gives the invariant and both prey on the map at the start. */
  lemma InitialInv(sc: Scene, m: Math)
    requires |sc.objects| == TileCount + 4 && UniqueIds(sc.objects)
    requires forall k :: 0 <= k < |sc.objects| ==> sc.objects[k].id != SunId
    requires sc.objects[TileCount].position == Vec3(0.0, 0.0, 6.0) && sc.steve == Some(sc.objects[TileCount].id)
    requires sc.objects[TileCount + 1].position == Vec3(0.0, 0.0, -6.0) && sc.pig == Some(sc.objects[TileCount + 1].id)
    requires sc.objects[TileCount].name != CreeperName && sc.objects[TileCount + 1].name != CreeperName
    requires var last := sc.objects[|sc.objects| - 1]; last.name == CreeperName && sc.creeper == Some(last.id)
    requires sc.sun == Some(SunId) && sc.steve == Some(SteveId) && sc.pig == Some(PigId)
    ensures Inv(Initial(sc, m)) && PreyOnMap(Initial(sc, m))
  {
    var w := Initial(sc, m);
    IndexOfUnique(sc.objects, TileCount);
    IndexOfUnique(sc.objects, TileCount + 1);
    IndexOfUnique(sc.objects, |sc.objects| - 1);
    assert ListInv(w.objects, w.creeper, w.steve, w.pig, w.sun) by {
      assert sc.objects[TileCount].id != sc.objects[TileCount + 1].id;
      assert IndexOf(sc.objects, SunId).None?;
    }
    assert InGamut(White);
  }
}
