/** Patch lists on the wire: which JSON array stands for which list of patches. */
module PatchLists {
  import opened Wrappers
  import opened Json
  import opened Store
  import opened StoreInvariant

  const PATCH_KEYS := ["baseBundleId", "baseFileHash", "patchFileHash", "patchStorageUri"]

  predicate HasText(item: Json, key: string, text: string) {
    item.Object? && key in item.fields && item.fields[key] == String(text)
  }

  /** The item carries p under the four keys, whatever other keys it has. */
  predicate Describes(item: Json, p: CliPatch) {
    && HasText(item, "baseBundleId", p.baseBundleId) && HasText(item, "baseFileHash", p.baseFileHash)
    && HasText(item, "patchFileHash", p.patchFileHash) && HasText(item, "patchStorageUri", p.patchStorageUri)
  }

  /** One of the four keys is missing or holds no string. */
  predicate Malformed(item: Json) {
    exists key :: key in PATCH_KEYS && !(item.Object? && key in item.fields && item.fields[key].String?)
  }

  /** patches is a JSON array that spells out the list, item by item. */
  predicate Spells(patches: Option<Json>, list: seq<CliPatch>) {
    && patches.Some? && patches.value.Array? && |patches.value.items| == |list|
    && forall i :: 0 <= i < |list| ==> Describes(patches.value.items[i], list[i])
  }

  lemma {:induction false} ReadsWhatIsDescribed(item: Json, p: CliPatch)
    ensures ReadPatch(item) == Some(p) <==> Describes(item, p)
    ensures ReadPatch(item) == None <==> Malformed(item)
  {
    if ReadPatch(item) == None {
      if StringField(item, PATCH_KEYS[0]) == None {
        assert PATCH_KEYS[0] in PATCH_KEYS;
      } else if StringField(item, PATCH_KEYS[1]) == None {
        assert PATCH_KEYS[1] in PATCH_KEYS;
      } else if StringField(item, PATCH_KEYS[2]) == None {
        assert PATCH_KEYS[2] in PATCH_KEYS;
      } else {
        assert PATCH_KEYS[3] in PATCH_KEYS;
      }
    }
  }

  lemma {:induction false} ReadListIsRead(items: seq<Json>, list: seq<CliPatch>)
    requires |items| == |list| && forall i :: 0 <= i < |list| ==> ReadPatch(items[i]) == Some(list[i])
    requires DistinctBases(list)
    ensures FirstPerBase(items) == list
  {
    if items != [] {
      var n := |items| - 1;
      ReadListIsRead(items[..n], list[..n]);
      FirstPerBaseStep(items, items[..n], items[n]);
      NoneBefore(list, n);
      assert list == list[..n] + [list[n]];
    }
  }

  lemma NoneBefore(list: seq<CliPatch>, n: nat)
    requires n < |list| && DistinctBases(list)
    ensures !exists p :: p in list[..n] && SameBase(p, list[n])
  {
  }

  /** An array that spells out a list with distinct bases is read as that list. */
  lemma {:induction false} SpelledListIsRead(patches: Option<Json>, list: seq<CliPatch>)
    requires Spells(patches, list) && DistinctBases(list)
    ensures PatchesOf(patches) == list
  {
    forall i | 0 <= i < |list|
      ensures ReadPatch(patches.value.items[i]) == Some(list[i])
    {
      ReadsWhatIsDescribed(patches.value.items[i], list[i]);
    }
    ReadListIsRead(patches.value.items, list);
  }

  function WithoutItem(items: seq<Json>, i: nat): seq<Json>
    requires i < |items|
  {
    items[..i] + items[i + 1..]
  }

  /** The item is malformed, or an earlier one describes a patch from the same base. */
  ghost predicate Superfluous(items: seq<Json>, i: nat)
    requires i < |items|
  {
    || Malformed(items[i])
    || exists j, p, q :: 0 <= j < i && Describes(items[j], p) && Describes(items[i], q) && SameBase(p, q)
  }

  /** The same in the terms of the reader. */
  ghost predicate Useless(read: Option<CliPatch>, front: seq<CliPatch>) {
    read.Some? ==> exists p :: p in front && SameBase(p, read.value)
  }

  lemma SuperfluousIsUseless(items: seq<Json>, i: nat)
    requires i < |items| && Superfluous(items, i)
    ensures Useless(ReadPatch(items[i]), FirstPerBase(items[..i]))
  {
    if Malformed(items[i]) {
      ReadsWhatIsDescribed(items[i], CliPatch("", "", "", ""));
    } else {
      var j, p, q :| 0 <= j < i && Describes(items[j], p) && Describes(items[i], q) && SameBase(p, q);
      ReadsWhatIsDescribed(items[j], p);
      ReadsWhatIsDescribed(items[i], q);
      BaseIsListed(items[..i], j, p);
    }
  }

  lemma BaseIsListed(items: seq<Json>, j: nat, p: CliPatch)
    requires j < |items| && ReadPatch(items[j]) == Some(p)
    ensures exists x :: x in FirstPerBase(items) && SameBase(x, p)
  {
    EveryBaseIsListed(items);
  }

  lemma FirstPerBaseStep(items: seq<Json>, front: seq<Json>, last: Json)
    requires items == front + [last]
    ensures FirstPerBase(items) ==
            if Useless(ReadPatch(last), FirstPerBase(front)) then FirstPerBase(front)
            else FirstPerBase(front) + [ReadPatch(last).value]
  {
    assert items[..|items| - 1] == front;
  }

  lemma {:induction false} UselessIsDropped(items: seq<Json>, i: nat)
    requires i < |items| && Useless(ReadPatch(items[i]), FirstPerBase(items[..i]))
    ensures FirstPerBase(WithoutItem(items, i)) == FirstPerBase(items)
    decreases |items|
  {
    var n := |items| - 1;
    var front := items[..n];
    FirstPerBaseStep(items, front, items[n]);
    if i == n {
      assert WithoutItem(items, i) == front;
    } else {
      assert front[..i] == items[..i];
      UselessIsDropped(front, i);
      assert WithoutItem(items, i) == WithoutItem(front, i) + [items[n]];
      FirstPerBaseStep(WithoutItem(items, i), WithoutItem(front, i), items[n]);
    }
  }

  /** Dropping a superfluous item changes nothing. */
  lemma SuperfluousIsDropped(items: seq<Json>, i: nat)
    requires i < |items| && Superfluous(items, i)
    ensures PatchesOf(Some(Array(WithoutItem(items, i)))) == PatchesOf(Some(Array(items)))
  {
    SuperfluousIsUseless(items, i);
    UselessIsDropped(items, i);
  }
}
