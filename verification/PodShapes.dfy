/**
  pkg/gatherers/workloads: the shapes of pods and their tally within one namespace
  (types.go, and workloadPodShapeIndex, workloadContainerShapesEqual, matchingSpecIndex of
  gather_workloads_info.go).
 */
module PodShapes {
  import opened Options

  // ---------- shapes ----------

  datatype ContainerShape = ContainerShape(imageID: string, firstCommand: string, firstArg: string, runtimeKey: string)

  datatype PodShape = PodShape(
    duplicates: nat, restartsAlways: bool, initContainers: seq<ContainerShape>, containers: seq<ContainerShape>)

  /** What is compared of a container: not the key under which its runtime is looked up. */
  datatype ContainerKey = ContainerKey(imageID: string, firstCommand: string, firstArg: string)

  datatype ShapeKey = ShapeKey(init: seq<ContainerKey>, containers: seq<ContainerKey>)

  function KeyOfContainer(c: ContainerShape): ContainerKey { ContainerKey(c.imageID, c.firstCommand, c.firstArg) }

  function Keys(s: seq<ContainerShape>): (r: seq<ContainerKey>)
  {
    seq(|s|, i requires 0 <= i < |s| => KeyOfContainer(s[i]))
  }

  function Key(shape: PodShape): ShapeKey { ShapeKey(Keys(shape.initContainers), Keys(shape.containers)) }

  method WorkloadContainerShapesEqual(a: seq<ContainerShape>, b: seq<ContainerShape>) returns (equal: bool)
    ensures equal <==> Keys(a) == Keys(b)
    ensures equal <==> SameContainers(a, b)
  {
    if |a| != |b| {
      assert |Keys(a)| != |Keys(b)|;
      return false;
    }
    for i := 0 to |a|
      invariant forall k | 0 <= k < i :: KeyOfContainer(a[k]) == KeyOfContainer(b[k])
    {
      if a[i].imageID != b[i].imageID || a[i].firstArg != b[i].firstArg || a[i].firstCommand != b[i].firstCommand {
        assert Keys(a)[i] != Keys(b)[i];
        return false;
      }
    }
    return true;
  }

  /** The latest equivalent shape, or -1. */
  method WorkloadPodShapeIndex(shapes: seq<PodShape>, shape: PodShape) returns (index: int)
    ensures -1 <= index < |shapes|
    ensures index >= 0 ==> Key(shapes[index]) == Key(shape)
    ensures forall k | index < k < |shapes| :: Key(shapes[k]) != Key(shape)
  {
    hide Keys;
    index := |shapes| - 1;
    while index >= 0
      invariant -1 <= index < |shapes|
      invariant forall k | index < k < |shapes| :: Key(shapes[k]) != Key(shape)
    {
      var existing := shapes[index];
      var same := WorkloadContainerShapesEqual(existing.initContainers, shape.initContainers);
      if same {
        same := WorkloadContainerShapesEqual(existing.containers, shape.containers);
        if same {
          return;
        }
      }
      index := index - 1;
    }
  }

  /**
    The container of that name in the spec: the one at the hint, or else the first; -1 when there is none. So
    with distinct names the hint does not matter.
   */
  method MatchingSpecIndex(name: string, spec: seq<string>, hint: nat) returns (index: int)
    ensures -1 <= index < |spec|
    ensures index == -1 <==> name !in spec
    ensures index >= 0 ==> spec[index] == name && (index == hint || forall k | 0 <= k < index :: spec[k] != name)
    ensures hint < |spec| && spec[hint] == name ==> index == hint
  {
    if hint < |spec| {
      if spec[hint] == name {
        return hint;
      }
    }
    for i := 0 to |spec|
      invariant forall k | 0 <= k < i :: spec[k] != name
    {
      if spec[i] == name {
        return i;
      }
    }
    return -1;
  }

  // ---------- pods ----------

  datatype Phase = Pending | Running | Succeeded | Failed | OtherPhase

  /** The API server gives every pod a namespace. */
  type Namespace = s: string | s != "" witness "default"

  /** A pod with the sizes of its container lists, and what calculatePodShape makes of it. */
  datatype Pod = Pod(
    namespace: Namespace, phase: Phase, initContainers: nat, containers: nat, initContainerStatuses: nat,
    containerStatuses: nat, shape: Option<PodShape>)

  predicate IsPodTerminated(pod: Pod) { pod.phase == Succeeded || pod.phase == Failed }

  predicate PodCanBeIgnored(pod: Pod)
  {
    || (pod.phase != Running && pod.phase != Pending)
    || pod.initContainerStatuses != pod.initContainers
    || pod.containerStatuses != pod.containers
  }

  /** What a pod is counted as. */
  datatype Kind = Terminal | Ignored | Invalid | Shaped(key: ShapeKey)

  function KindOf(pod: Pod): Kind
  {
    if IsPodTerminated(pod) then Terminal
    else if PodCanBeIgnored(pod) then Ignored
    else if pod.shape.None? then Invalid
    else Shaped(Key(pod.shape.value))
  }

  /** The pod has not ended and is in a known phase. */
  predicate Active(pod: Pod) { pod.phase == Running || pod.phase == Pending }

  predicate StatusIsFilled(pod: Pod)
  {
    pod.initContainerStatuses == pod.initContainers && pod.containerStatuses == pod.containers
  }

  /** How a pod is counted, by its phase, the sizes of its lists, and whether it has a shape. */
  lemma {:induction false} KindExactly(pod: Pod)
    ensures KindOf(pod) == Terminal <==> pod.phase == Succeeded || pod.phase == Failed
    ensures KindOf(pod) == Ignored <==> pod.phase == OtherPhase || (Active(pod) && !StatusIsFilled(pod))
    ensures KindOf(pod) == Invalid <==> Active(pod) && StatusIsFilled(pod) && pod.shape == None
    ensures KindOf(pod).Shaped? <==> Active(pod) && StatusIsFilled(pod) && pod.shape.Some?
    ensures forall s | pod.shape == Some(s) && KindOf(pod).Shaped? :: KindOf(pod).key == Key(s)
  {
    hide Key;
  }

  /** Two shapes have one key exactly when their containers agree in image, first command and first argument. */
  lemma {:induction false} SameKeyExactly(a: PodShape, b: PodShape)
    ensures Key(a) == Key(b) <==>
            SameContainers(a.initContainers, b.initContainers) && SameContainers(a.containers, b.containers)
  {
    hide Keys;
    SameKeys(a.initContainers, b.initContainers);
    SameKeys(a.containers, b.containers);
  }

  predicate SameContainers(a: seq<ContainerShape>, b: seq<ContainerShape>)
  {
    |a| == |b| && forall i | 0 <= i < |a| ::
      a[i].imageID == b[i].imageID && a[i].firstCommand == b[i].firstCommand && a[i].firstArg == b[i].firstArg
  }

  lemma {:induction false} SameKeys(a: seq<ContainerShape>, b: seq<ContainerShape>)
    ensures Keys(a) == Keys(b) <==> SameContainers(a, b)
  {
    KeysAt(a);
    KeysAt(b);
    hide Keys;
    if Keys(a) == Keys(b) {
      assert forall i | 0 <= i < |a| :: KeyOfContainer(a[i]) == KeyOfContainer(b[i]);
    } else if |a| == |b| {
      var i :| 0 <= i < |a| && Keys(a)[i] != Keys(b)[i];
    }
  }

  function CountKind(pods: seq<Pod>, k: Kind): nat
  {
    if pods == [] then 0
    else CountKind(pods[..|pods| - 1], k) + if KindOf(pods[|pods| - 1]) == k then 1 else 0
  }

  // ---------- images ----------

  function ImagesOf(key: ShapeKey): set<string> { set c | c in key.init + key.containers :: c.imageID }

  /** A pod of some shape has a container of the image. */
  ghost predicate Uses(pods: seq<Pod>, id: string)
  {
    exists p :: p in pods && KindOf(p).Shaped? && id in ImagesOf(KindOf(p).key)
  }

  /** The images sent to be looked up are those of the pods' shapes. */
  ghost predicate Sent(images: seq<string>, pods: seq<Pod>) { forall id :: id in images <==> Uses(pods, id) }

  predicate HasImage(shape: PodShape, id: string)
  {
    || (exists i :: 0 <= i < |shape.initContainers| && shape.initContainers[i].imageID == id)
    || (exists i :: 0 <= i < |shape.containers| && shape.containers[i].imageID == id)
  }

  /** The images sent are those of all containers of the pods that are counted under a shape. */
  lemma {:induction false} SentExactly(images: seq<string>, pods: seq<Pod>, id: string)
    requires Sent(images, pods)
    ensures id in images <==>
            exists p :: p in pods && KindOf(p).Shaped? && p.shape.Some? && HasImage(p.shape.value, id)
  {
    forall p | p in pods && KindOf(p).Shaped?
      ensures p.shape.Some? && (HasImage(p.shape.value, id) <==> id in ImagesOf(KindOf(p).key))
    {
      ShapeImages(p.shape.value);
    }
    hide KindOf, HasImage, ImagesOf;
  }

  method SendImages(images: seq<string>, shape: PodShape) returns (images': seq<string>)
    ensures forall id :: id in images' <==> id in images || HasImage(shape, id)
    ensures forall id :: id in images' <==> id in images || id in ImagesOf(Key(shape))
  {
    images' := SendContainers(images, shape.initContainers);
    images' := SendContainers(images', shape.containers);
    ShapeImages(shape);
  }

  method SendContainers(images: seq<string>, containers: seq<ContainerShape>) returns (images': seq<string>)
    ensures forall id :: id in images' <==>
              id in images || exists i :: 0 <= i < |containers| && containers[i].imageID == id
  {
    images' := images;
    for i := 0 to |containers|
      invariant forall id :: id in images' <==> id in images || exists k :: 0 <= k < i && containers[k].imageID == id
    {
      images' := images' + [containers[i].imageID];
    }
  }

  lemma {:induction false} ShapeImages(shape: PodShape)
    ensures forall id :: id in ImagesOf(Key(shape)) <==> HasImage(shape, id)
  {
    var key := Key(shape);
    KeysAt(shape.initContainers);
    KeysAt(shape.containers);
    hide Keys;
    forall id ensures id in ImagesOf(key) <==> HasImage(shape, id) {
      if i :| 0 <= i < |shape.initContainers| && shape.initContainers[i].imageID == id {
        assert key.init[i] in key.init + key.containers;
      }
      if i :| 0 <= i < |shape.containers| && shape.containers[i].imageID == id {
        assert key.containers[i] in key.init + key.containers;
      }
    }
  }

  lemma {:induction false} KeysAt(s: seq<ContainerShape>)
    ensures |Keys(s)| == |s| && forall i | 0 <= i < |s| :: Keys(s)[i] == KeyOfContainer(s[i])
  {
  }

  // ---------- the tally of one namespace ----------

  datatype NamespacePods = NamespacePods(
    count: nat, terminalCount: nat, ignoredCount: nat, invalidCount: nat, shapes: seq<PodShape>)

  const NO_PODS := NamespacePods(0, 0, 0, 0, [])

  predicate ShapesDistinct(shapes: seq<PodShape>)
  {
    forall i, j | 0 <= i < j < |shapes| :: Key(shapes[i]) != Key(shapes[j])
  }

  /** Each shape stands for all pods of that shape, the first and its duplicates; no shape is missing. */
  ghost predicate TalliesShapes(shapes: seq<PodShape>, pods: seq<Pod>)
  {
    && ShapesDistinct(shapes)
    && (forall i | 0 <= i < |shapes| :: shapes[i].duplicates + 1 == CountKind(pods, Shaped(Key(shapes[i]))))
    && (forall p | p in pods && KindOf(p).Shaped? :: exists i :: 0 <= i < |shapes| && Key(shapes[i]) == KindOf(p).key)
  }

  ghost predicate Tallies(np: NamespacePods, pods: seq<Pod>)
  {
    && np.count == |pods|
    && np.terminalCount == CountKind(pods, Terminal)
    && np.ignoredCount == CountKind(pods, Ignored)
    && np.invalidCount == CountKind(pods, Invalid)
    && TalliesShapes(np.shapes, pods)
  }

  function SumShapes(shapes: seq<PodShape>): nat
  {
    if shapes == [] then 0 else SumShapes(shapes[..|shapes| - 1]) + shapes[|shapes| - 1].duplicates + 1
  }

  lemma {:induction false} CountOneMore(pods: seq<Pod>, pod: Pod, k: Kind)
    ensures CountKind(pods + [pod], k) == CountKind(pods, k) + if KindOf(pod) == k then 1 else 0
  {
    assert (pods + [pod])[..|pods|] == pods;
  }

  /** The body of the loop over pods, after the limit check. */
  method TallyPod(np: NamespacePods, pod: Pod, ghost pods: seq<Pod>) returns (np': NamespacePods, isNew: bool)
    requires Tallies(np, pods)
    ensures Tallies(np', pods + [pod])
    ensures isNew <==> KindOf(pod).Shaped? && forall i | 0 <= i < |np.shapes| :: Key(np.shapes[i]) != KindOf(pod).key
  {
    hide CountKind, Key, TalliesShapes;
    isNew := false;
    np' := np.(count := np.count + 1);
    CountOneMore(pods, pod, Terminal);
    CountOneMore(pods, pod, Ignored);
    CountOneMore(pods, pod, Invalid);
    if IsPodTerminated(pod) {
      np' := np'.(terminalCount := np'.terminalCount + 1);
      SameShapes(np.shapes, pods, pod);
      return;
    } else if PodCanBeIgnored(pod) {
      np' := np'.(ignoredCount := np'.ignoredCount + 1);
      SameShapes(np.shapes, pods, pod);
      return;
    }
    if pod.shape.None? {
      np' := np'.(invalidCount := np'.invalidCount + 1);
      SameShapes(np.shapes, pods, pod);
      return;
    }
    var podShape := pod.shape.value;
    var index := WorkloadPodShapeIndex(np.shapes, podShape);
    if index != -1 {
      var shape := np.shapes[index];
      np' := np'.(shapes := np'.shapes[index := shape.(duplicates := shape.duplicates + 1)]);
      KnownShape(np.shapes, pods, pod, index);
      return;
    }
    np' := np'.(shapes := np'.shapes + [podShape.(duplicates := 0)]);
    isNew := true;
    NewShape(np.shapes, pods, pod);
  }

  /** Only the first pod of a shape sends its images: the others have the same ones. */
  lemma {:induction false} FirstPodSends(
    images: seq<string>, images': seq<string>, seen: seq<Pod>, pod: Pod, np: NamespacePods, pods: seq<Pod>, isNew: bool)
    requires Sent(images, seen) && Tallies(np, pods) && forall p | p in pods :: p in seen
    requires isNew <==> KindOf(pod).Shaped? && forall i | 0 <= i < |np.shapes| :: Key(np.shapes[i]) != KindOf(pod).key
    requires !isNew ==> images' == images
    requires isNew ==> forall id :: id in images' <==> id in images || id in ImagesOf(KindOf(pod).key)
    ensures Sent(images', seen + [pod])
  {
    hide KindOf, Key, ImagesOf, CountKind;
    if KindOf(pod).Shaped? && !isNew {
      var i :| 0 <= i < |np.shapes| && Key(np.shapes[i]) == KindOf(pod).key;
      var q := SomeOfKind(pods, KindOf(pod));
    }
  }

  lemma {:induction false} SomeOfKind(pods: seq<Pod>, k: Kind) returns (p: Pod)
    requires CountKind(pods, k) > 0
    ensures p in pods && KindOf(p) == k
  {
    hide KindOf;
    p := pods[|pods| - 1];
    if KindOf(p) != k {
      p := SomeOfKind(pods[..|pods| - 1], k);
    }
  }

  lemma {:induction false} SameShapes(shapes: seq<PodShape>, pods: seq<Pod>, pod: Pod)
    requires TalliesShapes(shapes, pods) && !KindOf(pod).Shaped?
    ensures TalliesShapes(shapes, pods + [pod])
  {
    hide CountKind, Key, KindOf;
    forall i | 0 <= i < |shapes| ensures shapes[i].duplicates + 1 == CountKind(pods + [pod], Shaped(Key(shapes[i]))) {
      CountOneMore(pods, pod, Shaped(Key(shapes[i])));
    }
  }

  lemma {:induction false} KnownShape(shapes: seq<PodShape>, pods: seq<Pod>, pod: Pod, index: nat)
    requires TalliesShapes(shapes, pods) && index < |shapes| && KindOf(pod) == Shaped(Key(shapes[index]))
    ensures TalliesShapes(shapes[index := shapes[index].(duplicates := shapes[index].duplicates + 1)], pods + [pod])
  {
    hide CountKind, Keys, KindOf;
    var shapes' := shapes[index := shapes[index].(duplicates := shapes[index].duplicates + 1)];
    assert forall i | 0 <= i < |shapes| :: Key(shapes'[i]) == Key(shapes[i]);
    hide Key;
    forall i | 0 <= i < |shapes| ensures shapes'[i].duplicates + 1 == CountKind(pods + [pod], Shaped(Key(shapes'[i]))) {
      CountOneMore(pods, pod, Shaped(Key(shapes[i])));
    }
    forall p | p in pods + [pod] && KindOf(p).Shaped?
      ensures exists i :: 0 <= i < |shapes'| && Key(shapes'[i]) == KindOf(p).key
    {
      if p in pods {
        var i :| 0 <= i < |shapes| && Key(shapes[i]) == KindOf(p).key;
        assert Key(shapes'[i]) == KindOf(p).key;
      } else {
        assert Key(shapes'[index]) == KindOf(p).key;
      }
    }
  }

  lemma {:induction false} NewShape(shapes: seq<PodShape>, pods: seq<Pod>, pod: Pod)
    requires TalliesShapes(shapes, pods) && pod.shape.Some? && KindOf(pod) == Shaped(Key(pod.shape.value))
    requires forall i | 0 <= i < |shapes| :: Key(shapes[i]) != Key(pod.shape.value)
    ensures TalliesShapes(shapes + [pod.shape.value.(duplicates := 0)], pods + [pod])
  {
    hide CountKind, Keys, KindOf;
    var added := pod.shape.value.(duplicates := 0);
    var shapes' := shapes + [added];
    assert Key(added) == Key(pod.shape.value);
    hide Key;
    NoneCounted(shapes, pods, Key(added));
    forall i | 0 <= i < |shapes'|
      ensures shapes'[i].duplicates + 1 == CountKind(pods + [pod], Shaped(Key(shapes'[i])))
    {
      CountOneMore(pods, pod, Shaped(Key(shapes'[i])));
    }
    forall p | p in pods + [pod] && KindOf(p).Shaped?
      ensures exists i :: 0 <= i < |shapes'| && Key(shapes'[i]) == KindOf(p).key
    {
      if p in pods {
        var i :| 0 <= i < |shapes| && Key(shapes[i]) == KindOf(p).key;
        assert Key(shapes'[i]) == KindOf(p).key;
      } else {
        assert Key(shapes'[|shapes|]) == KindOf(p).key;
      }
    }
  }

  lemma {:induction false} NoneCounted(shapes: seq<PodShape>, pods: seq<Pod>, key: ShapeKey)
    requires forall p | p in pods && KindOf(p).Shaped? ::
               exists i :: 0 <= i < |shapes| && Key(shapes[i]) == KindOf(p).key
    requires forall i | 0 <= i < |shapes| :: Key(shapes[i]) != key
    ensures CountKind(pods, Shaped(key)) == 0
  {
    hide Key, KindOf;
    if pods != [] {
      var last := pods[|pods| - 1];
      assert last in pods;
      assert forall p | p in pods[..|pods| - 1] :: p in pods;
      NoneCounted(shapes, pods[..|pods| - 1], key);
    }
  }

  // ---------- conservation ----------

  function SumKinds(pods: seq<Pod>, shapes: seq<PodShape>): nat
  {
    if shapes == [] then 0
    else SumKinds(pods, shapes[..|shapes| - 1]) + CountKind(pods, Shaped(Key(shapes[|shapes| - 1])))
  }

  /** Every pod of the namespace is counted once: as terminal, ignored, invalid, or under its shape. */
  lemma {:induction false} PodsAreConserved(np: NamespacePods, pods: seq<Pod>)
    requires Tallies(np, pods)
    ensures np.count == np.terminalCount + np.ignoredCount + np.invalidCount + SumShapes(np.shapes)
  {
    hide CountKind, Key, KindOf;
    SumsAgree(np.shapes, pods);
    KindsPartition(pods, np.shapes);
  }

  lemma {:induction false} SumsAgree(shapes: seq<PodShape>, pods: seq<Pod>)
    requires forall i | 0 <= i < |shapes| :: shapes[i].duplicates + 1 == CountKind(pods, Shaped(Key(shapes[i])))
    ensures SumShapes(shapes) == SumKinds(pods, shapes)
  {
    hide CountKind, Key;
    if shapes != [] {
      SumsAgree(shapes[..|shapes| - 1], pods);
    }
  }

  lemma {:induction false} KindsPartition(pods: seq<Pod>, shapes: seq<PodShape>)
    requires ShapesDistinct(shapes)
    requires forall p | p in pods && KindOf(p).Shaped? ::
               exists i :: 0 <= i < |shapes| && Key(shapes[i]) == KindOf(p).key
    ensures |pods| == CountKind(pods, Terminal) + CountKind(pods, Ignored) + CountKind(pods, Invalid)
                      + SumKinds(pods, shapes)
  {
    hide Key, KindOf;
    if pods == [] {
      NoKinds(shapes);
    } else {
      var init, last := pods[..|pods| - 1], pods[|pods| - 1];
      assert pods == init + [last];
      assert last in pods && forall p | p in init :: p in pods;
      KindsPartition(init, shapes);
      SumOneMore(init, last, shapes);
    }
  }

  lemma {:induction false} NoKinds(shapes: seq<PodShape>)
    ensures SumKinds([], shapes) == 0
  {
    if shapes != [] {
      NoKinds(shapes[..|shapes| - 1]);
    }
  }

  lemma {:induction false} SumOneMore(pods: seq<Pod>, pod: Pod, shapes: seq<PodShape>)
    requires ShapesDistinct(shapes)
    ensures SumKinds(pods + [pod], shapes) == SumKinds(pods, shapes)
            + if KindOf(pod).Shaped? && exists i :: 0 <= i < |shapes| && Key(shapes[i]) == KindOf(pod).key then 1 else 0
  {
    hide Key, KindOf, CountKind;
    if shapes != [] {
      var n := |shapes| - 1;
      SumOneMore(pods, pod, shapes[..n]);
      CountOneMore(pods, pod, Shaped(Key(shapes[n])));
      assert forall i | 0 <= i < n :: shapes[..n][i] == shapes[i];
    }
  }
}
