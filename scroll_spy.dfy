/** Scroll-spy: the map from section id to navigation link, built once from
    the links' `data-target` attributes, and the intersection callback that
    marks the link of the section in view as the only active one. Links are
    named by their position in the page's list of `.nav-link` elements. */
module ScrollSpy {
  import opened Optional

  /** One intersection report: the observed section's id and whether it is
      inside the (shrunk) viewport. */
  datatype Entry = Entry(id: string, isIntersecting: bool)

  /** Every link the map names is one of the `count` links. */
  predicate LinksWithin(navMap: map<string, nat>, count: nat) {
    forall id :: id in navMap ==> navMap[id] < count
  }

  /** The navMap build loop: a link whose `data-target` is present and not
      empty is stored under that id, and a later link with the same target
      replaces an earlier one. */
  method BuildNavMap(targets: seq<Option<string>>) returns (navMap: map<string, nat>)
    ensures forall id :: id in navMap <==> id != "" && Some(id) in targets
    ensures forall id :: id in navMap ==>
              navMap[id] < |targets| && targets[navMap[id]] == Some(id)
              && forall j :: navMap[id] < j < |targets| ==> targets[j] != Some(id)
  {
    navMap := map[];
    var i := 0;
    while i < |targets|
      invariant 0 <= i <= |targets|
      invariant forall id :: id in navMap <==> id != "" && Some(id) in targets[..i]
      invariant forall id :: id in navMap ==>
                  navMap[id] < i && targets[navMap[id]] == Some(id)
                  && forall j :: navMap[id] < j < i ==> targets[j] != Some(id)
    {
      assert targets[..i + 1] == targets[..i] + [targets[i]];
      var t := targets[i];
      if t.Some? && t.value != "" {
        navMap := navMap[t.value := i];
      }
      i := i + 1;
    }
    assert targets[..i] == targets;
  }

  /** The only active link is `k` among `count` links. */
  function OnlyActive(count: nat, k: nat): (flags: seq<bool>)
    requires k < count
    ensures |flags| == count && flags[k]
    ensures forall j :: 0 <= j < count && j != k ==> !flags[j]
  {
    seq(count, j => j == k)
  }

  /** An entry moves the highlight exactly when its section is intersecting
      and its id has a link. */
  predicate Applies(navMap: map<string, nat>, e: Entry) {
    e.isIntersecting && e.id in navMap
  }

  /** One entry of the callback: the mapped link becomes the only active
      one, or nothing changes. */
  function SpyStep(active: seq<bool>, navMap: map<string, nat>, e: Entry): (r: seq<bool>)
    requires LinksWithin(navMap, |active|)
    ensures |r| == |active|
    ensures Applies(navMap, e) ==>
              r[navMap[e.id]] && forall j :: 0 <= j < |r| && j != navMap[e.id] ==> !r[j]
    ensures !Applies(navMap, e) ==> r == active
  {
    if Applies(navMap, e) then OnlyActive(|active|, navMap[e.id]) else active
  }

  /** A batch of entries, applied in delivery order. */
  function SpyBatch(active: seq<bool>, navMap: map<string, nat>, entries: seq<Entry>): (r: seq<bool>)
    requires LinksWithin(navMap, |active|)
    ensures |r| == |active|
    decreases |entries|
  {
    if entries == [] then active
    else SpyStep(SpyBatch(active, navMap, entries[..|entries| - 1]), navMap, entries[|entries| - 1])
  }

  /** In a batch, the last entry that applies decides the highlight: its
      link is the only active one. */
  lemma {:induction false} LastApplyingEntryWins(active: seq<bool>, navMap: map<string, nat>, entries: seq<Entry>, k: nat)
    requires LinksWithin(navMap, |active|)
    requires k < |entries| && Applies(navMap, entries[k])
    requires forall j :: k < j < |entries| ==> !Applies(navMap, entries[j])
    ensures SpyBatch(active, navMap, entries) == OnlyActive(|active|, navMap[entries[k].id])
  {
    var n := |entries|;
    if k < n - 1 {
      var prefix := entries[..n - 1];
      assert forall j :: k < j < |prefix| ==> prefix[j] == entries[j];
      LastApplyingEntryWins(active, navMap, prefix, k);
    }
  }

  /** A batch in which no entry applies changes nothing. */
  lemma {:induction false} NoApplyingEntryNoChange(active: seq<bool>, navMap: map<string, nat>, entries: seq<Entry>)
    requires LinksWithin(navMap, |active|)
    requires forall j :: 0 <= j < |entries| ==> !Applies(navMap, entries[j])
    ensures SpyBatch(active, navMap, entries) == active
  {
    if entries != [] {
      var prefix := entries[..|entries| - 1];
      assert forall j :: 0 <= j < |prefix| ==> prefix[j] == entries[j];
      NoApplyingEntryNoChange(active, navMap, prefix);
    }
  }

  /** After a batch in which some entry applies, exactly one link is
      active. */
  lemma {:induction false} ExactlyOneActiveAfterApplying(active: seq<bool>, navMap: map<string, nat>, entries: seq<Entry>, k: nat)
    requires LinksWithin(navMap, |active|)
    requires k < |entries| && Applies(navMap, entries[k])
    ensures var r := SpyBatch(active, navMap, entries);
            exists a :: 0 <= a < |r| && r[a] && forall j :: 0 <= j < |r| && j != a ==> !r[j]
  {
    var last := k;
    var j := k + 1;
    while j < |entries|
      invariant k <= last < |entries| && last < j <= |entries|
      invariant Applies(navMap, entries[last])
      invariant forall i :: last < i < j ==> !Applies(navMap, entries[i])
    {
      if Applies(navMap, entries[j]) {
        last := j;
      }
      j := j + 1;
    }
    LastApplyingEntryWins(active, navMap, entries, last);
    var a := navMap[entries[last].id];
    assert SpyBatch(active, navMap, entries)[a];
  }

  /** The names a plain JavaScript object inherits from `Object.prototype`.
      `navMap` is such an object, so looking up one of these names that no
      link stored finds the inherited member, which is truthy. */
  const InheritedNames: set<string> := {
    "constructor", "hasOwnProperty", "isPrototypeOf", "propertyIsEnumerable",
    "toLocaleString", "toString", "valueOf", "__proto__",
    "__defineGetter__", "__defineSetter__", "__lookupGetter__", "__lookupSetter__"
  }

  /** How the callback ends for one entry: normally, or by throwing, with
      the flags as they are at that point. */
  datatype StepResult = Completed(flags: seq<bool>) | Threw(flags: seq<bool>)

  /** One entry of the callback as the page script writes it, over a plain
      object. A section whose id is an inherited name passes the `!navLink`
      test; only if it is intersecting does every link lose `active`, and then
      `navLink.classList.add` throws, since the inherited member has no
      `classList`. Everywhere else it agrees with `SpyStep`. */
  function SpyStepAsWritten(active: seq<bool>, navMap: map<string, nat>, e: Entry): (r: StepResult)
    requires LinksWithin(navMap, |active|)
    ensures e.id in navMap || e.id !in InheritedNames || !e.isIntersecting ==>
              r == Completed(SpyStep(active, navMap, e))
    ensures e.id !in navMap && e.id in InheritedNames && e.isIntersecting ==>
              r.Threw? && |r.flags| == |active| && forall j :: 0 <= j < |r.flags| ==> !r.flags[j]
  {
    if e.id in navMap then Completed(SpyStep(active, navMap, e))
    else if e.id in InheritedNames && e.isIntersecting then Threw(seq(|active|, j => false))
    else Completed(active)
  }

  /** A page with one link, for the section "about", highlighted, and a
      section with the id "constructor" scrolling into view: as written the
      highlight is removed and the callback throws, leaving no link active;
      `SpyStep` ignores the unmapped section. */
  lemma {:induction false} InheritedIdClearsHighlight()
    ensures var navMap, e := map["about" := 0], Entry("constructor", true);
            SpyStepAsWritten([true], navMap, e) == Threw([false])
            && SpyStep([true], navMap, e) == [true]
  {
    var navMap, e := map["about" := 0], Entry("constructor", true);
    assert e.id !in navMap;
    assert seq(1, j => false) == [false];
  }

  /** The links' active flags together with the map built from their
      targets; the spy callback updates the flags in place. */
  class Spy {
    const navMap: map<string, nat>
    var active: seq<bool>

    predicate Valid()
      reads this
    {
      LinksWithin(navMap, |active|)
    }

    /** `targets` are the links' `data-target` attributes and `initial`
      their active flags as the page was loaded. */
    constructor (targets: seq<Option<string>>, initial: seq<bool>)
      requires |initial| == |targets|
      ensures Valid() && active == initial
      ensures forall id :: id in navMap <==> id != "" && Some(id) in targets
      ensures forall id :: id in navMap ==>
                targets[navMap[id]] == Some(id)
                && forall j :: navMap[id] < j < |targets| ==> targets[j] != Some(id)
    {
      var m := BuildNavMap(targets);
      navMap := m;
      active := initial;
    }

    /** The intersection callback for one batch: for each entry whose
      section is intersecting and mapped, every link loses `active` and then
      the mapped link gains it. */
    method OnIntersections(entries: seq<Entry>)
      requires Valid()
      modifies this
      ensures Valid() && |active| == |old(active)|
      ensures active == SpyBatch(old(active), navMap, entries)
    {
      var i := 0;
      while i < |entries|
        invariant 0 <= i <= |entries|
        invariant |active| == |old(active)|
        invariant active == SpyBatch(old(active), navMap, entries[..i])
      {
        assert entries[..i + 1][..i] == entries[..i];
        var entry := entries[i];
        if entry.id in navMap && entry.isIntersecting {
          var link := navMap[entry.id];
          var n := 0;
          while n < |active|
            invariant 0 <= n <= |active| && |active| == |old(active)|
            invariant forall j :: 0 <= j < n ==> !active[j]
          {
            active := active[n := false];
            n := n + 1;
          }
          active := active[link := true];
          assert active == OnlyActive(|active|, link);
        }
        i := i + 1;
      }
      assert entries[..i] == entries;
    }
  }
}
