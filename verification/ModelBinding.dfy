/** Models: meshes and bones read from files, with cached links to materials, bones
    and parents. */
module ModelBinding {

  class Material {
    const name: string

    constructor (name: string)
      ensures this.name == name
    {
      this.name := name;
    }
  }

  class ModelBone {
    const parentIndex: int
    var parent: ModelBone?
    var children: seq<ModelBone>

    constructor (parentIndex: int)
      ensures this.parentIndex == parentIndex && parent == null && children == []
    {
      this.parentIndex, parent, children := parentIndex, null, [];
    }
  }

  class ModelMesh {
    const materialName: string
    const boneIndex: int
    var material: Material?
    var bone: ModelBone?

    constructor (materialName: string, boneIndex: int)
      ensures this.materialName == materialName && this.boneIndex == boneIndex && material == null && bone == null
    {
      this.materialName, this.boneIndex, material, bone := materialName, boneIndex, null, null;
    }
  }

  /** What a file says of a mesh. */
  datatype MeshData = MeshData(materialName: string, boneIndex: int)

  predicate IsFrom(mesh: ModelMesh, data: MeshData) {
    mesh.materialName == data.materialName && mesh.boneIndex == data.boneIndex
  }

  /** The first material of that name among those from k on. */
  function FirstNamed(materials: seq<Material>, name: string, k: nat): Material?
    decreases |materials| - k
  {
    if k >= |materials| then null
    else if materials[k].name == name then materials[k]
    else FirstNamed(materials, name, k + 1)
  }

  /** Indices are unsigned, so a negative one is past the end. */
  function BoneAt(bones: seq<ModelBone>, index: int): ModelBone? {
    if 0 <= index < |bones| then bones[index] else null
  }

  /** What is found stays first when materials are added behind. */
  lemma {:induction false} FirstStays(materials: seq<Material>, more: seq<Material>, name: string, k: nat)
    requires FirstNamed(materials, name, k) != null
    ensures FirstNamed(materials + more, name, k) == FirstNamed(materials, name, k)
    decreases |materials| - k
  {
    if materials[k].name != name {
      FirstStays(materials, more, name, k + 1);
    }
  }

  /** m is the first material of that name, or null if none has it. */
  ghost predicate IsNamed(m: Material?, materials: seq<Material>, name: string) {
    && (m == null ==> forall k :: 0 <= k < |materials| ==> materials[k].name != name)
    && (m != null ==> exists k :: FirstAt(materials, name, k) && materials[k] == m)
  }

  /** The material at place k has that name, and none before it has. */
  ghost predicate FirstAt(materials: seq<Material>, name: string, k: int) {
    0 <= k < |materials| && materials[k].name == name && forall j :: 0 <= j < k ==> materials[j].name != name
  }

  lemma {:induction false} FirstIsNamed(materials: seq<Material>, name: string, k: nat)
    requires forall j :: 0 <= j < k && j < |materials| ==> materials[j].name != name
    ensures IsNamed(FirstNamed(materials, name, k), materials, name)
    decreases |materials| - k
  {
    if k < |materials| {
      if materials[k].name == name {
        assert FirstAt(materials, name, k);
      } else {
        FirstIsNamed(materials, name, k + 1);
      }
    }
  }

  /** Every mesh has the first material of its material's name, if there is one, and
      the bone of its index, if there is one. */
  ghost predicate AllCached(meshes: seq<ModelMesh>, materials: seq<Material>, bones: seq<ModelBone>)
    reads meshes
  {
    && (forall i :: 0 <= i < |meshes| ==> IsNamed(meshes[i].material, materials, meshes[i].materialName))
    && forall i :: 0 <= i < |meshes| ==>
         meshes[i].bone == if 0 <= meshes[i].boneIndex < |bones| then bones[meshes[i].boneIndex] else null
  }

  lemma BoundAreCached(meshes: seq<ModelMesh>, materials: seq<Material>, bones: seq<ModelBone>)
    requires forall i :: 0 <= i < |meshes| ==> Bound(meshes[i], materials, bones)
    ensures AllCached(meshes, materials, bones)
  {
    forall i | 0 <= i < |meshes|
      ensures IsNamed(meshes[i].material, materials, meshes[i].materialName)
    {
      assert Bound(meshes[i], materials, bones);
      FirstIsNamed(materials, meshes[i].materialName, 0);
    }
  }

  /** A mesh's caches agree with a fresh lookup. */
  ghost predicate Bound(mesh: ModelMesh, materials: seq<Material>, bones: seq<ModelBone>)
    reads mesh
  {
    mesh.material == FirstNamed(materials, mesh.materialName, 0) && mesh.bone == BoneAt(bones, mesh.boneIndex)
  }

  /** A cache that is filled agrees with a fresh lookup. */
  ghost predicate Agrees(mesh: ModelMesh, materials: seq<Material>, bones: seq<ModelBone>)
    reads mesh
  {
    && (mesh.material != null ==> mesh.material == FirstNamed(materials, mesh.materialName, 0))
    && (mesh.bone != null ==> mesh.bone == BoneAt(bones, mesh.boneIndex))
  }

  lemma StillAgrees(mesh: ModelMesh, materials: seq<Material>, bones: seq<ModelBone>,
                    moreMaterials: seq<Material>, moreBones: seq<ModelBone>)
    requires Bound(mesh, materials, bones)
    ensures Agrees(mesh, materials + moreMaterials, bones + moreBones)
  {
    if mesh.material != null {
      FirstStays(materials, moreMaterials, mesh.materialName, 0);
    }
  }

  /** The bones among the first n whose parent is bone p, in order. */
  ghost function ChildrenOf(bones: seq<ModelBone>, p: int, n: nat): seq<ModelBone>
    requires n <= |bones|
  {
    if n == 0 then []
    else if bones[n - 1].parentIndex == p then ChildrenOf(bones, p, n - 1) + [bones[n - 1]]
    else ChildrenOf(bones, p, n - 1)
  }

  ghost function ParentOf(bones: seq<ModelBone>, bone: ModelBone): ModelBone? {
    if bone.parentIndex >= 0 then BoneAt(bones, bone.parentIndex) else null
  }

  ghost predicate NoDuplicates<T>(s: seq<T>) {
    forall i, j :: 0 <= i < j < |s| ==> s[i] != s[j]
  }

  /** The first n bones know their parents and their children among them, the others
      have neither. */
  ghost predicate Linked(bones: seq<ModelBone>, n: nat)
    requires n <= |bones|
    reads bones
  {
    && (forall i :: 0 <= i < |bones| ==> bones[i].parent == if i < n then ParentOf(bones[..n], bones[i]) else null)
    && (forall p :: 0 <= p < |bones| ==> bones[p].children == if p < n then ChildrenOf(bones, p, n) else [])
  }

  /** The first n bones have the parents that their indices name among them; the
      others have none. */
  ghost predicate ParentsKnown(bones: seq<ModelBone>, n: nat)
    requires n <= |bones|
    reads bones
  {
    forall i :: 0 <= i < |bones| ==>
      bones[i].parent == if i < n && 0 <= bones[i].parentIndex < n then bones[bones[i].parentIndex] else null
  }

  lemma LinkedKnow(bones: seq<ModelBone>, n: nat)
    requires n <= |bones| && Linked(bones, n)
    ensures ParentsKnown(bones, n)
  {
  }

  class Model {
    var root: ModelBone?
    var materials: seq<Material>
    var bones: seq<ModelBone>
    var meshes: seq<ModelMesh>
    /** How many bones had been read when the hierarchy was linked. */
    ghost var linked: nat

    ghost predicate Shape()
      reads this
    {
      NoDuplicates(bones) && NoDuplicates(meshes) && linked <= |bones|
    }

    ghost predicate Valid()
      reads this, bones, meshes
    {
      && Shape() && Linked(bones, linked)
      && (forall i :: 0 <= i < |meshes| ==> Bound(meshes[i], materials, bones))
      && (if root == null then |bones| == 0 else linked > 0 && root == bones[0])
    }

    /** While a file is read: what is linked and cached is right, but not complete. */
    ghost predicate Loading()
      reads this, bones, meshes
    {
      && Shape() && Linked(bones, linked)
      && (forall i :: 0 <= i < |meshes| ==> Agrees(meshes[i], materials, bones))
      && (if root == null then linked == 0 else linked > 0 && root == bones[0])
    }

    constructor ()
      ensures Valid() && materials == [] && bones == [] && meshes == []
    {
      root, materials, bones, meshes, linked := null, [], [], [], 0;
    }

    method GetMaterialByName(name: string) returns (m: Material?)
      ensures m == FirstNamed(materials, name, 0) && IsNamed(m, materials, name)
    {
      FirstIsNamed(materials, name, 0);
      for k := 0 to |materials|
        invariant FirstNamed(materials, name, k) == FirstNamed(materials, name, 0)
      {
        if materials[k].name == name {
          return materials[k];
        }
      }
      return null;
    }

    method GetBoneByIndex(index: int) returns (b: ModelBone?)
      ensures b == BoneAt(bones, index)
      ensures b == if 0 <= index < |bones| then bones[index] else null
    {
      b := if index < 0 || index >= |bones| then null else bones[index];
    }

    /** Fill the caches that are empty. */
    method BindCaches()
      requires NoDuplicates(meshes) && forall i :: 0 <= i < |meshes| ==> Agrees(meshes[i], materials, bones)
      modifies meshes
      ensures forall i :: 0 <= i < |meshes| ==> Bound(meshes[i], materials, bones)
      ensures AllCached(meshes, materials, bones)
    {
      for n := 0 to |meshes|
        invariant forall i :: 0 <= i < |meshes| ==> Agrees(meshes[i], materials, bones)
        invariant forall i :: 0 <= i < n ==> meshes[i].material == FirstNamed(materials, meshes[i].materialName, 0)
      {
        if meshes[n].material == null {
          meshes[n].material := GetMaterialByName(meshes[n].materialName);
        }
      }
      for n := 0 to |meshes|
        invariant forall i :: 0 <= i < |meshes| ==> Agrees(meshes[i], materials, bones)
        invariant forall i :: 0 <= i < |meshes| ==>
                  meshes[i].material == FirstNamed(materials, meshes[i].materialName, 0)
        invariant forall i :: 0 <= i < n ==> Bound(meshes[i], materials, bones)
      {
        if meshes[n].bone == null {
          meshes[n].bone := GetBoneByIndex(meshes[n].boneIndex);
        }
      }
      BoundAreCached(meshes, materials, bones);
    }

    /** Link the bones to their parents and children, the first time there are any. */
    method LinkBones()
      requires Shape() && Linked(bones, linked)
      requires root == null ==> linked == 0 && forall i :: 0 <= i < |bones| ==> bones[i].parentIndex < |bones|
      modifies this`root, this`linked, bones
      ensures Shape() && Linked(bones, linked)
      ensures if old(root) != null || |bones| == 0 then root == old(root) && linked == old(linked)
              else root == bones[0] && linked == |bones|
      ensures ParentsKnown(bones, linked)
    {
      if root == null && |bones| > 0 {
        root := bones[0];
        LinkAll();
        linked := |bones|;
      }
      LinkedKnow(bones, linked);
    }

    method LinkAll()
      requires NoDuplicates(bones) && Linked(bones, 0) && forall i :: 0 <= i < |bones| ==>
               bones[i].parentIndex < |bones|
      modifies bones
      ensures Linked(bones, |bones|) && ParentsKnown(bones, |bones|)
    {
      for n := 0 to |bones|
        invariant forall i :: 0 <= i < |bones| ==> bones[i].parent == if i < n then ParentOf(bones, bones[i]) else null
        invariant forall p :: 0 <= p < |bones| ==> bones[p].children == ChildrenOf(bones, p, n)
      {
        LinkBone(n);
      }
      assert bones[..|bones|] == bones;
      LinkedKnow(bones, |bones|);
    }

    method LinkBone(n: nat)
      requires NoDuplicates(bones) && n < |bones| && bones[n].parentIndex < |bones|
      requires forall i :: 0 <= i < |bones| ==> bones[i].parent == if i < n then ParentOf(bones, bones[i]) else null
      requires forall p :: 0 <= p < |bones| ==> bones[p].children == ChildrenOf(bones, p, n)
      modifies bones
      ensures forall i :: 0 <= i < |bones| ==> bones[i].parent == if i < n + 1 then ParentOf(bones, bones[i]) else null
      ensures forall p :: 0 <= p < |bones| ==> bones[p].children == ChildrenOf(bones, p, n + 1)
    {
      var bone := bones[n];
      if bone.parentIndex >= 0 {
        bone.parent := bones[bone.parentIndex];
        bone.parent.children := bone.parent.children + [bone];
      } else {
        bone.parent := null;
      }
    }

    method BindCacheInfo()
      requires Loading() && (root == null ==> forall i :: 0 <= i < |bones| ==> bones[i].parentIndex < |bones|)
      modifies this`root, this`linked, bones, meshes
      ensures Valid() && AllCached(meshes, materials, bones) && ParentsKnown(bones, linked)
      ensures linked == if old(root) == null then |bones| else old(linked)
    {
      BindCaches();
      LinkBones();
      BoundAreCached(meshes, materials, bones);
    }

    /** Read materials: they are appended, and the meshes bound. */
    method ReadMaterial(more: seq<Material>)
      requires Valid()
      modifies this`materials, this`root, this`linked, bones, meshes
      ensures Valid() && materials == old(materials) + more && root == old(root) && linked == old(linked)
      ensures AllCached(meshes, materials, bones) && ParentsKnown(bones, linked)
    {
      forall i | 0 <= i < |meshes|
        ensures Agrees(meshes[i], materials + more, bones)
      {
        StillAgrees(meshes[i], materials, bones, more, []);
        assert bones + [] == bones;
      }
      materials := materials + more;
      BindCacheInfo();
    }

    method AddBone(parentIndex: int)
      requires Loading()
      modifies this`bones
      ensures Loading() && |bones| == |old(bones)| + 1 && bones[..|old(bones)|] == old(bones)
      ensures fresh(bones[|old(bones)|]) && bones[|old(bones)|].parentIndex == parentIndex
    {
      var bone := new ModelBone(parentIndex);
      forall i | 0 <= i < |meshes|
        ensures Agrees(meshes[i], materials, bones + [bone])
      {
      }
      LinkedStays(bones, bone, linked);
      bones := bones + [bone];
    }

    method AddMesh(materialName: string, boneIndex: int)
      requires Loading()
      modifies this`meshes
      ensures Loading() && |meshes| == |old(meshes)| + 1 && meshes[..|old(meshes)|] == old(meshes)
      ensures var mesh := meshes[|old(meshes)|];
              fresh(mesh) && mesh.materialName == materialName && mesh.boneIndex == boneIndex
    {
      var mesh := new ModelMesh(materialName, boneIndex);
      meshes := meshes + [mesh];
    }

    method ReadBones(parents: seq<int>)
      requires Loading()
      modifies this`bones
      ensures Loading() && |bones| == |old(bones)| + |parents| && bones[..|old(bones)|] == old(bones)
      ensures forall i :: |old(bones)| <= i < |bones| ==>
              fresh(bones[i]) && bones[i].parentIndex == parents[i - |old(bones)|]
    {
      ghost var bones0 := bones;
      for n := 0 to |parents|
        invariant Loading() && |bones| == |bones0| + n && bones[..|bones0|] == bones0
        invariant forall i :: |bones0| <= i < |bones| ==>
                  fresh(bones[i]) && bones[i].parentIndex == parents[i - |bones0|]
      {
        AddBone(parents[n]);
      }
    }

    method ReadMeshes(newMeshes: seq<MeshData>)
      requires Loading()
      modifies this`meshes
      ensures Loading() && |meshes| == |old(meshes)| + |newMeshes| && meshes[..|old(meshes)|] == old(meshes)
      ensures forall i :: |old(meshes)| <= i < |meshes| ==>
                fresh(meshes[i]) && IsFrom(meshes[i], newMeshes[i - |old(meshes)|])
    {
      ghost var meshes0 := meshes;
      for n := 0 to |newMeshes|
        invariant Loading() && |meshes| == |meshes0| + n && meshes[..|meshes0|] == meshes0
        invariant forall i :: |meshes0| <= i < |meshes| ==>
                    fresh(meshes[i]) && IsFrom(meshes[i], newMeshes[i - |meshes0|])
      {
        AddMesh(newMeshes[n].materialName, newMeshes[n].boneIndex);
      }
    }

    /** Read the bones and then the meshes of a model file. */
    method ReadModel(parents: seq<int>, newMeshes: seq<MeshData>)
      requires Valid() && (root == null ==> forall i :: 0 <= i < |parents| ==> parents[i] < |parents|)
      modifies this`root, this`linked, this`bones, this`meshes, bones, meshes
      ensures Valid() && materials == old(materials)
      ensures |bones| == |old(bones)| + |parents| && bones[..|old(bones)|] == old(bones)
      ensures |meshes| == |old(meshes)| + |newMeshes| && meshes[..|old(meshes)|] == old(meshes)
      ensures forall i :: |old(bones)| <= i < |bones| ==> bones[i].parentIndex == parents[i - |old(bones)|]
      ensures forall i :: |old(meshes)| <= i < |meshes| ==>
                IsFrom(meshes[i], newMeshes[i - |old(meshes)|])
      ensures linked == if old(root) == null then |bones| else old(linked)
      ensures AllCached(meshes, materials, bones) && ParentsKnown(bones, linked)
    {
      forall i | 0 <= i < |meshes|
        ensures Agrees(meshes[i], materials, bones)
      {
        assert Bound(meshes[i], materials, bones);
      }
      ReadAll(parents, newMeshes);
      BindCacheInfo();
    }

    method ReadAll(parents: seq<int>, newMeshes: seq<MeshData>)
      requires Loading()
      modifies this`bones, this`meshes
      ensures Loading() && |bones| == |old(bones)| + |parents| && bones[..|old(bones)|] == old(bones)
      ensures |meshes| == |old(meshes)| + |newMeshes| && meshes[..|old(meshes)|] == old(meshes)
      ensures forall i :: |old(bones)| <= i < |bones| ==>
              fresh(bones[i]) && bones[i].parentIndex == parents[i - |old(bones)|]
      ensures forall i :: |old(meshes)| <= i < |meshes| ==>
                fresh(meshes[i]) && IsFrom(meshes[i], newMeshes[i - |old(meshes)|])
    {
      ReadBones(parents);
      ReadMeshes(newMeshes);
      assert forall i :: |old(meshes)| <= i < |meshes| ==> IsFrom(meshes[i], newMeshes[i - |old(meshes)|]);
    }
  }

  lemma {:induction false} ChildrenStay(bones: seq<ModelBone>, bone: ModelBone, p: int, n: nat)
    requires n <= |bones|
    ensures ChildrenOf(bones + [bone], p, n) == ChildrenOf(bones, p, n)
    decreases n
  {
    if n > 0 {
      ChildrenStay(bones, bone, p, n - 1);
    }
  }

  lemma LinkedStays(bones: seq<ModelBone>, bone: ModelBone, n: nat)
    requires n <= |bones| && Linked(bones, n) && bone.parent == null && bone.children == []
    ensures Linked(bones + [bone], n)
  {
    assert (bones + [bone])[..n] == bones[..n];
    forall p | 0 <= p < n
      ensures ChildrenOf(bones + [bone], p, n) == ChildrenOf(bones, p, n)
    {
      ChildrenStay(bones, bone, p, n);
    }
  }
}

/** The hierarchy that linking builds. */
module BoneForest {
  import opened ModelBinding

  /** Bone j of the first n is once among the children of its parent, and not among
      those of any other bone. */
  lemma {:induction false} ChildOnce(bones: seq<ModelBone>, p: int, n: nat, j: nat)
    requires NoDuplicates(bones) && n <= |bones| && j < |bones|
    ensures multiset(ChildrenOf(bones, p, n))[bones[j]] == if j < n && bones[j].parentIndex == p then 1 else 0
    decreases n
  {
    if n > 0 {
      ChildOnce(bones, p, n - 1, j);
    }
  }

  lemma {:induction false} ChildIsBone(bones: seq<ModelBone>, p: int, n: nat, c: ModelBone) returns (j: nat)
    requires n <= |bones| && c in ChildrenOf(bones, p, n)
    ensures j < n && bones[j] == c && c.parentIndex == p
    decreases n
  {
    if bones[n - 1].parentIndex == p && c == bones[n - 1] {
      j := n - 1;
    } else {
      j := ChildIsBone(bones, p, n - 1, c);
    }
  }

  /** Parents and children are inverse to each other: bone j is among the children
      of bone p, and then once, just if p is its parent. */
  lemma ParentsAndChildren(bones: seq<ModelBone>, n: nat, p: nat, j: nat)
    requires NoDuplicates(bones) && n <= |bones| && Linked(bones, n) && p < n && j < n
    ensures multiset(bones[p].children)[bones[j]] == if bones[j].parent == bones[p] then 1 else 0
  {
    ChildOnce(bones, p, n, j);
    var q := bones[j].parentIndex;
    assert bones[j].parent == ParentOf(bones[..n], bones[j]);
    if 0 <= q < n && q != p {
      assert bones[..n][q] == bones[q];
      assert q < p ==> bones[q] != bones[p];
    }
  }

  /** Children are listed in the order of the bones. */
  lemma {:induction false} ChildrenAscend(bones: seq<ModelBone>, p: int, n: nat, a: nat, b: nat)
      returns (i: nat, j: nat)
    requires n <= |bones| && a < b < |ChildrenOf(bones, p, n)|
    ensures i < j < n && ChildrenOf(bones, p, n)[a] == bones[i] && ChildrenOf(bones, p, n)[b] == bones[j]
    decreases n
  {
    var before := ChildrenOf(bones, p, n - 1);
    if b < |before| {
      i, j := ChildrenAscend(bones, p, n - 1, a, b);
    } else {
      i := ChildIsBone(bones, p, n - 1, before[a]);
      j := n - 1;
    }
  }

  lemma ChildrenInOrder(bones: seq<ModelBone>, n: nat, p: nat, a: nat, b: nat) returns (i: nat, j: nat)
    requires n <= |bones| && Linked(bones, n) && p < n && a < b < |bones[p].children|
    ensures i < j < n && bones[p].children[a] == bones[i] && bones[p].children[b] == bones[j]
  {
    i, j := ChildrenAscend(bones, p, n, a, b);
  }

  /** Only linked bones are children. */
  lemma ChildrenAreLinked(bones: seq<ModelBone>, n: nat, p: nat, c: ModelBone) returns (j: nat)
    requires NoDuplicates(bones) && n <= |bones| && Linked(bones, n) && p < |bones| && c in bones[p].children
    ensures p < n && j < n && c == bones[j] && c.parent == bones[p]
  {
    j := ChildIsBone(bones, p, n, c);
    assert bones[j].parent == ParentOf(bones[..n], bones[j]);
  }

  /** Following parents from b ends at a bone without one, within k steps. */
  ghost predicate EndsAtRoot(b: ModelBone, k: nat, bones: set<ModelBone>)
    reads bones
    decreases k
  {
    b in bones && (b.parent == null || (k > 0 && EndsAtRoot(b.parent, k - 1, bones)))
  }

  /** Where parents come before their children, every chain of parents ends. */
  lemma {:induction false} ChainsEnd(bones: seq<ModelBone>, n: nat, i: nat)
    requires n <= |bones| && Linked(bones, n) && i < n
    requires forall j :: 0 <= j < n ==> bones[j].parentIndex < j
    ensures EndsAtRoot(bones[i], i, set b | b in bones)
    decreases i
  {
    var p := bones[i].parentIndex;
    if p >= 0 {
      ChainsEnd(bones, n, p);
      Longer(bones[p], p, i - 1, set b | b in bones);
    }
  }

  lemma {:induction false} Longer(b: ModelBone, k: nat, m: nat, bones: set<ModelBone>)
    requires k <= m && EndsAtRoot(b, k, bones)
    ensures EndsAtRoot(b, m, bones)
    decreases k
  {
    if b.parent != null {
      Longer(b.parent, k - 1, m - 1, bones);
    }
  }
}
