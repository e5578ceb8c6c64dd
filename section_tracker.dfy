/** The section tracker behind the navigation highlight: which section of the
    page is active, and which sections have been marked "section-visible".
    The visibility observer reports its findings as batches of entries; the
    geometry that produces them is not part of this model. */
module SectionTracker {

  /** The observed sections, in page order; the first one is active before any report. */
  const Sections: seq<string> := ["home", "about", "skills", "projects", "contact"]

  /** One observer report: the id of the section's element and whether it now intersects the viewport. */
  datatype Entry = Entry(id: string, isIntersecting: bool)

  /** The active section after the entries of a batch are handled in order,
      each intersecting entry overwriting it. */
  function Apply(active: string, entries: seq<Entry>): (r: string)
    ensures r == active || exists k :: 0 <= k < |entries| && entries[k].isIntersecting && r == entries[k].id
    decreases |entries|
  {
    if entries == [] then active
    else Apply(if entries[0].isIntersecting then entries[0].id else active, entries[1..])
  }

  /** The ids of the intersecting entries of a batch: the sections the batch marks visible. */
  function Marked(entries: seq<Entry>): (r: set<string>)
    ensures |r| <= |entries|
    decreases |entries|
  {
    if entries == [] then {}
    else (if entries[0].isIntersecting then {entries[0].id} else {}) + Marked(entries[1..])
  }

  /** A batch marks exactly the ids of its intersecting entries. */
  lemma {:induction false} MarkedExactly(entries: seq<Entry>, id: string)
    ensures id in Marked(entries) <==> exists k :: 0 <= k < |entries| && entries[k].isIntersecting && entries[k].id == id
    decreases |entries|
  {
    if entries != [] {
      var rest := entries[1..];
      assert forall j :: 0 <= j < |rest| ==> rest[j] == entries[j + 1];
      MarkedExactly(rest, id);
      if id in Marked(rest) {
        var j :| 0 <= j < |rest| && rest[j].isIntersecting && rest[j].id == id;
        assert entries[j + 1] == rest[j];
      }
    }
  }

  /** A batch without an intersecting entry leaves the active section alone. */
  lemma {:induction false} ApplyNoneIntersecting(active: string, entries: seq<Entry>)
    requires forall k :: 0 <= k < |entries| ==> !entries[k].isIntersecting
    ensures Apply(active, entries) == active
    decreases |entries|
  {
    if entries != [] {
      assert forall k :: 0 <= k < |entries| - 1 ==> entries[1..][k] == entries[k + 1];
      ApplyNoneIntersecting(active, entries[1..]);
    }
  }

  /** Last report wins: the last intersecting entry of a batch decides the active section. */
  lemma {:induction false} ApplyLastWins(active: string, entries: seq<Entry>, k: nat)
    requires k < |entries| && entries[k].isIntersecting
    requires forall j :: k < j < |entries| ==> !entries[j].isIntersecting
    ensures Apply(active, entries) == entries[k].id
    decreases |entries|
  {
    var next := if entries[0].isIntersecting then entries[0].id else active;
    var rest := entries[1..];
    assert forall j :: 0 <= j < |rest| ==> rest[j] == entries[j + 1];
    if k == 0 {
      ApplyNoneIntersecting(next, rest);
    } else {
      ApplyLastWins(next, rest, k - 1);
    }
  }

  /** Two batches handled one after the other act as their concatenation. */
  lemma {:induction false} ApplyConcat(active: string, first: seq<Entry>, second: seq<Entry>)
    ensures Apply(Apply(active, first), second) == Apply(active, first + second)
    decreases |first|
  {
    if first != [] {
      var next := if first[0].isIntersecting then first[0].id else active;
      assert (first + second)[1..] == first[1..] + second;
      ApplyConcat(next, first[1..], second);
    } else {
      assert first + second == second;
    }
  }

  /** Two batches mark the same sections as their concatenation. */
  lemma {:induction false} MarkedConcat(first: seq<Entry>, second: seq<Entry>)
    ensures Marked(first) + Marked(second) == Marked(first + second)
    decreases |first|
  {
    if first != [] {
      assert (first + second)[1..] == first[1..] + second;
      MarkedConcat(first[1..], second);
    } else {
      assert first + second == second;
    }
  }

  /** The active section is always one of the observed sections, or the one it was before. */
  lemma {:induction false} ApplyStaysAmongSections(active: string, entries: seq<Entry>)
    requires active in Sections
    requires forall k :: 0 <= k < |entries| ==> entries[k].id in Sections
    ensures Apply(active, entries) in Sections
    decreases |entries|
  {
    if entries != [] {
      var next := if entries[0].isIntersecting then entries[0].id else active;
      assert forall k :: 0 <= k < |entries| - 1 ==> entries[1..][k] == entries[k + 1];
      ApplyStaysAmongSections(next, entries[1..]);
    }
  }

  /** The tracker's state: the `activeSection` state and the set of sections carrying the "section-visible" class. */
  class Tracker {
    var active: string
    var visible: set<string>

    /** Mount: "home" is active and no section is marked yet. */
    constructor ()
      ensures active == "home" && active == Sections[0]
      ensures visible == {}
    {
      active := "home";
      visible := {};
    }

    /** The observer callback: handle one batch of entries in order. */
    method Observe(entries: seq<Entry>)
      modifies this
      ensures active == Apply(old(active), entries)
      ensures visible == old(visible) + Marked(entries)
      ensures old(visible) <= visible
      ensures old(active) in Sections && (forall k :: 0 <= k < |entries| ==> entries[k].id in Sections)
              ==> active in Sections
      ensures (forall k :: 0 <= k < |entries| ==> !entries[k].isIntersecting) ==> active == old(active)
      ensures forall k :: 0 <= k < |entries| && entries[k].isIntersecting
                          && (forall j :: k < j < |entries| ==> !entries[j].isIntersecting)
                          ==> active == entries[k].id
    {
      var i := 0;
      while i < |entries|
        invariant 0 <= i <= |entries|
        invariant Apply(active, entries[i..]) == Apply(old(active), entries)
        invariant visible == old(visible) + Marked(entries[..i])
      {
        assert entries[i..][1..] == entries[i + 1..];
        assert entries[..i + 1] == entries[..i] + [entries[i]];
        MarkedConcat(entries[..i], [entries[i]]);
        assert Marked([entries[i]]) == if entries[i].isIntersecting then {entries[i].id} else {};
        if entries[i].isIntersecting {
          active := entries[i].id;
          visible := visible + {entries[i].id};
        }
        i := i + 1;
      }
      assert entries[..i] == entries;
      if forall k :: 0 <= k < |entries| ==> !entries[k].isIntersecting {
        ApplyNoneIntersecting(old(active), entries);
      }
      if old(active) in Sections && forall k :: 0 <= k < |entries| ==> entries[k].id in Sections {
        ApplyStaysAmongSections(old(active), entries);
      }
      forall k | 0 <= k < |entries| && entries[k].isIntersecting
                 && (forall j :: k < j < |entries| ==> !entries[j].isIntersecting)
        ensures active == entries[k].id
      {
        ApplyLastWins(old(active), entries, k);
      }
    }
  }
}
