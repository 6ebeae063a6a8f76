/** JSON values and the deep merge that PATCH applies to bundle metadata. */
module Json {
  import opened Wrappers

  datatype Json =
    | Null
    | Bool(b: bool)
    | Number(n: real)
    | String(s: string)
    | Array(items: seq<Json>)
    | Object(fields: map<string, Json>)

  // ----- specification of the merge -----

  /** Objects merge key by key, arrays index by index; anything else is replaced by the patch. */
  function Merge(current: Json, patch: Json): Json
    decreases patch
  {
    match (current, patch)
    case (Object(base), Object(source)) =>
      Object(map k | k in base.Keys + source.Keys ::
        if k !in source then base[k] else if k in base then Merge(base[k], source[k]) else source[k])
    case (Array(base), Array(source)) =>
      Array(MergeItems(base, source))
    case _ => patch
  }

  function MergeItems(base: seq<Json>, source: seq<Json>): (r: seq<Json>)
    ensures |r| == if |base| > |source| then |base| else |source|
    ensures forall i :: 0 <= i < |r| ==>
              r[i] == if i >= |source| then base[i] else if i < |base| then Merge(base[i], source[i]) else source[i]
    decreases source, 0
  {
    if source == [] then base
    else
      var last := |source| - 1;
      var item := if last < |base| then Merge(base[last], source[last]) else source[last];
      var front := MergeItems(base, source[..last]);
      if last < |base| then front[last := item] else front + [item]
  }

  /** With nothing stored the patch is taken as it is. */
  function MergeMetadata(current: Option<Json>, patch: Json): Json {
    match current
    case None => patch
    case Some(c) => Merge(c, patch)
  }

  // ----- the program -----

  method MergeBundleMetadata(current: Option<Json>, patch: Json) returns (merged: Json)
    ensures merged == MergeMetadata(current, patch)
    decreases patch
  {
    if current.None? {
      return patch;
    }
    if current.value.Object? && patch.Object? {
      var base, source := current.value.fields, patch.fields;
      var fields := base;
      var pending := source.Keys;
      while pending != {}
        invariant pending <= source.Keys
        invariant fields.Keys == base.Keys + (source.Keys - pending)
        invariant forall k :: k in fields ==>
          fields[k] == if k !in source || k in pending then base[k]
                       else if k in base then Merge(base[k], source[k]) else source[k]
        decreases pending
      {
        var key :| key in pending;
        var next := source[key];
        if key in fields {
          next := MergeBundleMetadata(Some(fields[key]), source[key]);
        }
        fields := fields[key := next];
        pending := pending - {key};
      }
      return Object(fields);
    }
    if current.value.Array? && patch.Array? {
      var base, source := current.value.items, patch.items;
      var items := base;
      for index := 0 to |source|
        invariant items == MergeItems(base, source[..index])
      {
        var next := source[index];
        if index < |items| {
          next := MergeBundleMetadata(Some(items[index]), source[index]);
        }
        items := if index < |items| then items[index := next] else items + [next];
        assert source[..index + 1][..index] == source[..index];
      }
      assert source[..|source|] == source;
      return Array(items);
    }
    return patch;
  }

  // ----- what a merge is, path by path -----

  datatype Step = Key(k: string) | Index(i: nat)

  function Child(j: Json, s: Step): Option<Json> {
    match (j, s)
    case (Object(f), Key(k)) => if k in f then Some(f[k]) else None
    case (Array(a), Index(i)) => if i < |a| then Some(a[i]) else None
    case _ => None
  }

  /** The value found by walking down a path. */
  function At(j: Json, path: seq<Step>): Option<Json> {
    if path == [] then Some(j)
    else
      match Child(j, path[0])
      case None => None
      case Some(c) => At(c, path[1..])
  }

  predicate SameContainer(a: Json, b: Json) {
    (a.Object? && b.Object?) || (a.Array? && b.Array?)
  }

  /** On the way down the path the patch replaces a stored value instead of merging into it. */
  predicate Replaced(current: Json, patch: Json, path: seq<Step>) {
    if !SameContainer(current, patch) then true
    else if path == [] then false
    else
      match (Child(current, path[0]), Child(patch, path[0]))
      case (Some(c), Some(p)) => Replaced(c, p, path[1..])
      case (None, Some(_)) => true
      case _ => false
  }

  lemma {:induction false} ChildOfMerge(current: Json, patch: Json, s: Step)
    requires SameContainer(current, patch)
    ensures Child(Merge(current, patch), s) ==
            match (Child(current, s), Child(patch, s))
            case (Some(c), Some(p)) => Some(Merge(c, p))
            case (None, p) => p
            case (c, None) => c
  {
  }

  /** The merge, described from outside: what the patch reaches is merged there, and what it does not
      reach is the stored value, unless the patch replaced it further up. */
  lemma {:induction false} MergeAt(current: Json, patch: Json, path: seq<Step>)
    ensures At(Merge(current, patch), path) ==
            match (At(current, path), At(patch, path))
            case (Some(c), Some(p)) => Some(Merge(c, p))
            case (None, Some(p)) => Some(p)
            case (c, None) => if Replaced(current, patch, path) then None else c
  {
    if path != [] {
      if SameContainer(current, patch) {
        ChildOfMerge(current, patch, path[0]);
        match (Child(current, path[0]), Child(patch, path[0]))
        case (Some(c), Some(p)) => MergeAt(c, p, path[1..]);
        case _ =>
      } else {
        assert Child(current, path[0]).None? || Child(patch, path[0]).None?;
      }
    }
  }

  predicate IsLeaf(j: Json) {
    !j.Object? && !j.Array?
  }

  /** Every leaf of the patch is found at its path in the result. */
  lemma {:induction false} PatchLeavesArrive(current: Json, patch: Json, path: seq<Step>)
    requires At(patch, path).Some? && IsLeaf(At(patch, path).value)
    ensures At(Merge(current, patch), path) == At(patch, path)
  {
    MergeAt(current, patch, path);
  }

  /** Nothing stored is lost where the patch neither reaches nor replaces. */
  lemma {:induction false} StoredValuesStay(current: Json, patch: Json, path: seq<Step>)
    requires At(patch, path) == None && !Replaced(current, patch, path)
    ensures At(Merge(current, patch), path) == At(current, path)
  {
    MergeAt(current, patch, path);
  }

  /** Merging into an object adds keys and removes none; merging into an array keeps the longer length. */
  lemma {:induction false} MergeShape(current: Json, patch: Json)
    ensures current.Object? && patch.Object? ==>
              Merge(current, patch).Object? && Merge(current, patch).fields.Keys == current.fields.Keys + patch.fields.Keys
    ensures current.Array? && patch.Array? ==>
              Merge(current, patch).Array? && forall i :: 0 <= i < |current.items| && |patch.items| <= i ==>
                i < |Merge(current, patch).items| && Merge(current, patch).items[i] == current.items[i]
    ensures current.Object? ==> Merge(current, Object(map[])) == current
  {
    if current.Object? {
      assert Merge(current, Object(map[])).fields == current.fields;
    }
  }

  // ----- idempotence -----

  lemma {:induction false} MergeWithItself(p: Json)
    ensures Merge(p, p) == p
    decreases p
  {
    match p
    case Object(f) =>
      forall k | k in f
        ensures Merge(f[k], f[k]) == f[k]
      {
        MergeWithItself(f[k]);
      }
      assert Merge(p, p).fields == f;
    case Array(a) =>
      forall i | 0 <= i < |a|
        ensures Merge(a[i], a[i]) == a[i]
      {
        MergeWithItself(a[i]);
      }
      assert MergeItems(a, a) == a;
    case _ =>
  }

  /** Applying the same patch again changes nothing. */
  lemma {:induction false} MergeTwice(current: Json, patch: Json)
    ensures Merge(Merge(current, patch), patch) == Merge(current, patch)
    decreases patch
  {
    match (current, patch)
    case (Object(base), Object(source)) =>
      var once := Merge(current, patch).fields;
      forall k | k in source
        ensures Merge(once[k], source[k]) == once[k]
      {
        if k in base {
          MergeTwice(base[k], source[k]);
        } else {
          MergeWithItself(source[k]);
        }
      }
      assert Merge(Object(once), patch).fields == once;
    case (Array(base), Array(source)) =>
      var once := MergeItems(base, source);
      forall i | 0 <= i < |source|
        ensures Merge(once[i], source[i]) == once[i]
      {
        if i < |base| {
          MergeTwice(base[i], source[i]);
        } else {
          MergeWithItself(source[i]);
        }
      }
      assert MergeItems(once, source) == once;
    case _ =>
      MergeWithItself(patch);
  }

  // ----- two patches as one -----

  /** The patch leaves nothing of the stored value: it replaces it, or names all it holds, all the way down. */
  predicate Erases(current: Json, patch: Json)
    decreases patch
  {
    match (current, patch)
    case (Object(base), Object(source)) =>
      base.Keys <= source.Keys && forall k :: k in base && k in source ==> Erases(base[k], source[k])
    case (Array(base), Array(source)) =>
      |base| <= |source| && forall i :: 0 <= i < |base| && i < |source| ==> Erases(base[i], source[i])
    case _ => true
  }

  lemma {:induction false} ErasesExactly(current: Json, patch: Json)
    ensures Merge(current, patch) == patch <==> Erases(current, patch)
    decreases patch
  {
    match (current, patch)
    case (Object(base), Object(source)) =>
      var merged := Merge(current, patch).fields;
      forall k | k in base && k in source
        ensures merged[k] == source[k] <==> Erases(base[k], source[k])
      {
        ErasesExactly(base[k], source[k]);
      }
      assert merged.Keys == base.Keys + source.Keys;
      assert merged == source <==> merged.Keys == source.Keys && forall k :: k in source ==> merged[k] == source[k];
    case (Array(base), Array(source)) =>
      var merged := MergeItems(base, source);
      forall i | 0 <= i < |base| && i < |source|
        ensures merged[i] == source[i] <==> Erases(base[i], source[i])
      {
        ErasesExactly(base[i], source[i]);
      }
      assert merged == source <==> |merged| == |source| && forall i :: 0 <= i < |source| ==> merged[i] == source[i];
    case _ =>
  }

  /** Merging first and then second is merging what they merge to: wherever the second replaces what the
      first holds instead of merging into it, it must leave nothing of the stored value there. */
  predicate Combines(current: Json, first: Json, second: Json)
    decreases second
  {
    match (first, second)
    case (Object(f), Object(g)) =>
      current.Object? ==>
        forall k :: k in current.fields && k in f && k in g ==> Combines(current.fields[k], f[k], g[k])
    case (Array(a), Array(b)) =>
      current.Array? ==>
        forall i :: 0 <= i < |current.items| && i < |a| && i < |b| ==> Combines(current.items[i], a[i], b[i])
    case _ => Erases(current, second)
  }

  /** Exactly when two merges in a row are one. */
  lemma {:induction false} CombinesExactly(current: Json, first: Json, second: Json)
    ensures Merge(Merge(current, first), second) == Merge(current, Merge(first, second))
            <==> Combines(current, first, second)
    decreases second, 1
  {
    match (current, first, second)
    case (Object(c), Object(f), Object(g)) => ObjectsCombineExactly(c, f, g);
    case (Array(c), Array(a), Array(b)) => ArraysCombineExactly(c, a, b);
    case _ =>
      if !SameContainer(first, second) {
        ErasesExactly(current, second);
      }
  }

  lemma {:induction false} ObjectsCombineExactly(c: map<string, Json>, f: map<string, Json>, g: map<string, Json>)
    ensures Merge(Merge(Object(c), Object(f)), Object(g)) == Merge(Object(c), Merge(Object(f), Object(g)))
            <==> Combines(Object(c), Object(f), Object(g))
    decreases Object(g), 0
  {
    ObjectsCombine(c, f, g);
    forall k | k in c && k in f && k in g
      ensures Groups(c[k], f[k], g[k], MergeOp()) <==> Combines(c[k], f[k], g[k])
    {
      CombinesExactly(c[k], f[k], g[k]);
    }
  }

  lemma {:induction false} ArraysCombineExactly(c: seq<Json>, a: seq<Json>, b: seq<Json>)
    ensures Merge(Merge(Array(c), Array(a)), Array(b)) == Merge(Array(c), Merge(Array(a), Array(b)))
            <==> Combines(Array(c), Array(a), Array(b))
    decreases Array(b), 0
  {
    ArraysCombine(c, a, b);
    forall i | 0 <= i < |c| && i < |a| && i < |b|
      ensures Groups(c[i], a[i], b[i], MergeOp()) <==> Combines(c[i], a[i], b[i])
    {
      CombinesExactly(c[i], a[i], b[i]);
    }
  }

  /** op groups either way on three values. */
  predicate Groups<V(==)>(x: V, y: V, z: V, op: (V, V) -> V) {
    op(op(x, y), z) == op(x, op(y, z))
  }

  /** m holds the keys of both maps, with op applied where they share one. */
  predicate Unites<V(==)>(m: map<string, V>, a: map<string, V>, b: map<string, V>, op: (V, V) -> V) {
    m.Keys == a.Keys + b.Keys
    && forall k :: k in m ==> m[k] == if k !in b then a[k] else if k in a then op(a[k], b[k]) else b[k]
  }

  lemma UnionsCombine<V>(
    c: map<string, V>, f: map<string, V>, g: map<string, V>, cf: map<string, V>, fg: map<string, V>,
    left: map<string, V>, right: map<string, V>, op: (V, V) -> V)
    requires Unites(cf, c, f, op) && Unites(fg, f, g, op) && Unites(left, cf, g, op) && Unites(right, c, fg, op)
    ensures left == right <==>
              forall k :: k in c && k in f && k in g ==> Groups(c[k], f[k], g[k], op)
  {
    assert left.Keys == right.Keys;
    assert forall k :: k in left && !(k in c && k in f && k in g) ==> left[k] == right[k];
    assert left == right <==> forall k :: k in left ==> left[k] == right[k];
  }

  function MergeOp(): (op: (Json, Json) -> Json)
    ensures forall x, y :: op(x, y) == Merge(x, y)
  {
    (x, y) => Merge(x, y)
  }

  lemma {:induction false} MergeUnites(a: map<string, Json>, b: map<string, Json>)
    ensures Merge(Object(a), Object(b)).Object? && Unites(Merge(Object(a), Object(b)).fields, a, b, MergeOp())
  {
  }

  lemma {:induction false} ObjectsCombine(c: map<string, Json>, f: map<string, Json>, g: map<string, Json>)
    ensures Merge(Merge(Object(c), Object(f)), Object(g)) == Merge(Object(c), Merge(Object(f), Object(g))) <==>
              forall k :: k in c && k in f && k in g ==> Groups(c[k], f[k], g[k], MergeOp())
  {
    MergeUnites(c, f);
    MergeUnites(f, g);
    var cf, fg := Merge(Object(c), Object(f)).fields, Merge(Object(f), Object(g)).fields;
    MergeUnites(cf, g);
    MergeUnites(c, fg);
    UnionsCombine(c, f, g, cf, fg, Merge(Object(cf), Object(g)).fields, Merge(Object(c), Object(fg)).fields, MergeOp());
  }

  /** s has the longer length, with op applied where both sequences reach. */
  predicate Zips<V(==)>(s: seq<V>, a: seq<V>, b: seq<V>, op: (V, V) -> V) {
    |s| == (if |a| > |b| then |a| else |b|)
    && forall i :: 0 <= i < |s| ==> s[i] == if i >= |b| then a[i] else if i < |a| then op(a[i], b[i]) else b[i]
  }

  lemma ZipsCombine<V>(
    c: seq<V>, a: seq<V>, b: seq<V>, ca: seq<V>, ab: seq<V>, left: seq<V>, right: seq<V>, op: (V, V) -> V)
    requires Zips(ca, c, a, op) && Zips(ab, a, b, op) && Zips(left, ca, b, op) && Zips(right, c, ab, op)
    ensures left == right <==>
              forall i :: 0 <= i < |c| && i < |a| && i < |b| ==> Groups(c[i], a[i], b[i], op)
  {
    assert |left| == |right|;
    assert forall i :: 0 <= i < |left| && !(i < |c| && i < |a| && i < |b|) ==> left[i] == right[i];
    assert left == right <==> forall i :: 0 <= i < |left| ==> left[i] == right[i];
  }

  lemma {:induction false} MergeZips(a: seq<Json>, b: seq<Json>)
    ensures Merge(Array(a), Array(b)).Array? && Zips(Merge(Array(a), Array(b)).items, a, b, MergeOp())
  {
  }

  lemma {:induction false} ArraysCombine(c: seq<Json>, a: seq<Json>, b: seq<Json>)
    ensures Merge(Merge(Array(c), Array(a)), Array(b)) == Merge(Array(c), Merge(Array(a), Array(b))) <==>
              forall i :: 0 <= i < |c| && i < |a| && i < |b| ==> Groups(c[i], a[i], b[i], MergeOp())
  {
    MergeZips(c, a);
    MergeZips(a, b);
    var ca, ab := Merge(Array(c), Array(a)).items, Merge(Array(a), Array(b)).items;
    MergeZips(ca, b);
    MergeZips(c, ab);
    ZipsCombine(c, a, b, ca, ab, Merge(Array(ca), Array(b)).items, Merge(Array(c), Array(ab)).items, MergeOp());
  }

  // ----- reading stored columns -----

  /** A stored metadata column counts only if it is a JSON object, possibly one wrapped in a string.
      The reader of JSON text is a parameter. */
  function ParseBundleMetadata(value: Option<Json>, fromText: string -> Option<Json>): Option<Json> {
    match value
    case None => None
    case Some(v) =>
      var falsy := v.Null? || v == String("") || v == Bool(false) || v == Number(0.0);
      var parsed := if falsy then None else if v.String? then fromText(v.s) else Some(v);
      if parsed.Some? && parsed.value.Object? then parsed else None
  }

  /** The metadata column after a PATCH that carries metadata. */
  function PatchedMetadata(stored: Option<Json>, patch: Json, fromText: string -> Option<Json>): Json {
    MergeMetadata(ParseBundleMetadata(stored, fromText), patch)
  }

  /** Repeating the PATCH leaves the column as it is, through the re-reading of the stored value. */
  lemma PatchMetadataTwice(stored: Option<Json>, patch: Json, fromText: string -> Option<Json>)
    ensures var once := PatchedMetadata(stored, patch, fromText);
            PatchedMetadata(Some(once), patch, fromText) == once
  {
    match ParseBundleMetadata(stored, fromText)
    case None => MergeWithItself(patch);
    case Some(c) => MergeTwice(c, patch);
  }

  function OnlyStrings(items: seq<Json>): seq<string> {
    if items == [] then []
    else (if items[0].String? then [items[0].s] else []) + OnlyStrings(items[1..])
  }

  function ParseTargetCohorts(value: Option<Json>, fromText: string -> Option<Json>): Option<seq<string>> {
    match value
    case Some(Array(items)) => Some(OnlyStrings(items))
    case Some(String(s)) =>
      if s == "" then None
      else (match fromText(s) case Some(Array(items)) => Some(OnlyStrings(items)) case _ => None)
    case _ => None
  }

  function CohortsToJson(cohorts: seq<string>): Json {
    Array(seq(|cohorts|, i requires 0 <= i < |cohorts| => String(cohorts[i])))
  }

  /** What is written for a cohort list is read back. */
  lemma {:induction false} CohortsRoundTrip(cohorts: seq<string>, fromText: string -> Option<Json>)
    ensures ParseTargetCohorts(Some(CohortsToJson(cohorts)), fromText) == Some(cohorts)
  {
    if cohorts != [] {
      CohortsRoundTrip(cohorts[1..], fromText);
      assert CohortsToJson(cohorts).items[1..] == CohortsToJson(cohorts[1..]).items;
      assert cohorts == [cohorts[0]] + cohorts[1..];
    }
  }

  lemma {:induction false} OnlyStringsOfSum(a: seq<Json>, b: seq<Json>)
    ensures OnlyStrings(a + b) == OnlyStrings(a) + OnlyStrings(b)
  {
    if a == [] {
      assert a + b == b;
    } else {
      OnlyStringsOfSum(a[1..], b);
      assert (a + b)[1..] == a[1..] + b;
    }
  }

  /** An item that is no string is skipped; a column that holds the array as text is read like the array; and
      whatever is no array, as a value or as text, is no cohort list. */
  lemma CohortColumnForms(a: seq<Json>, item: Json, b: seq<Json>, text: string, fromText: string -> Option<Json>)
    ensures !item.String? ==>
              ParseTargetCohorts(Some(Array(a + [item] + b)), fromText) == ParseTargetCohorts(Some(Array(a + b)), fromText)
    ensures text != "" && fromText(text).Some? && fromText(text).value.Array? ==>
              ParseTargetCohorts(Some(String(text)), fromText) == ParseTargetCohorts(fromText(text), fromText)
    ensures text == "" || fromText(text).None? || !fromText(text).value.Array? ==>
              ParseTargetCohorts(Some(String(text)), fromText) == None
    ensures !item.String? && !item.Array? ==> ParseTargetCohorts(Some(item), fromText) == None
  {
    var rest := [item] + b;
    assert rest[1..] == b && a + rest == a + [item] + b;
    OnlyStringsOfSum(a, rest);
    OnlyStringsOfSum(a, b);
    if !item.String? {
      assert OnlyStrings(rest) == [] + OnlyStrings(b) == OnlyStrings(b);
    }
  }

  /** Metadata counts when it is an object, or text that reads as one. */
  lemma MetadataColumnForms(v: Json, fields: map<string, Json>, fromText: string -> Option<Json>)
    ensures ParseBundleMetadata(Some(v), fromText) == Some(Object(fields)) <==>
              v == Object(fields) || (v.String? && v.s != "" && fromText(v.s) == Some(Object(fields)))
    ensures ParseBundleMetadata(Some(v), fromText).Some? ==> ParseBundleMetadata(Some(v), fromText).value.Object?
  {
  }
}
