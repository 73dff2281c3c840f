/**
 * The one-time copy of the legacy product-field settings into sections
 * (`THWEPOF::may_copy_older_version_settings`).
 *
 * The legacy option `thwepof_custom_product_fields` holds two field lists, one
 * per add-to-cart anchor. The migration turns them into at most two sections,
 * writes each through `update_section`, and archives the legacy option under
 * `thwepof_custom_product_fields_bkp` only when every write reported success.
 * The store is abstract: the persisted sections by id, the legacy option and
 * the backup option. Whether `update_section` succeeds is an oracle.
 */
module LegacyMigration {

  const BEFORE_ANCHOR: string := "woo_before_add_to_cart_button"
  const AFTER_ANCHOR: string := "woo_after_add_to_cart_button"

  /** A product field; its structure plays no part in the migration. */
  datatype Field = Field(name: string, fieldType: string, title: string)

  datatype Section = Section(id: string, name: string, title: string, position: string, fields: seq<Field>)

  /** The value stored under one anchor key of the legacy option. */
  datatype LegacyEntry =
    | FieldList(fields: seq<Field>)  // an array of fields, in iteration order
    | NotAList                       // null, a scalar or anything else that is not an array

  /** What `get_option` returns for an option. */
  datatype OptionValue =
    | Missing                                  // `false`: the option does not exist
    | Scalar                                   // a value that is not an array
    | Assoc(entries: map<string, LegacyEntry>) // an array, by key

  /** The persisted state the migration reads and writes. */
  datatype Store = Store(sections: map<string, Section>, legacy: OptionValue, backup: OptionValue)

  /**
   * The section `prepare_default_section` returns (that helper is not part of
   * this model): id and name "default", placed before the add-to-cart button,
   * no title and no fields.
   */
  function DefaultSection(): (s: Section)
    ensures s.id == s.name == "default" && s.position == BEFORE_ANCHOR && s.fields == []
  {
    Section("default", "default", "", BEFORE_ANCHOR, [])
  }

  /** `add_field`: append one field to a section. */
  function AddField(s: Section, f: Field): (r: Section)
    ensures r.fields == s.fields + [f]
    ensures r.(fields := s.fields) == s
  {
    s.(fields := s.fields + [f])
  }

  /** The fields stored under one anchor; an absent or non-array entry has none. */
  function LegacyFields(entries: map<string, LegacyEntry>, anchor: string): seq<Field> {
    if anchor in entries && entries[anchor].FieldList? then entries[anchor].fields else []
  }

  /**
   * The sections the migration writes, in the order it writes them: both
   * renamed ("default"/"Section 1", then "section_2"/"Section 2" moved after the
   * button) when both lists have fields; only the after-section, moved but not
   * renamed, when only the after-list has fields; only the before-section,
   * unchanged, when only the before-list has fields; nothing otherwise.
   */
  function PlannedWrites(entries: map<string, LegacyEntry>): (w: seq<Section>)
    ensures |w| <= 2
    ensures forall s :: s in w ==> s.fields != []
    ensures w == [] <==> LegacyFields(entries, BEFORE_ANCHOR) == [] && LegacyFields(entries, AFTER_ANCHOR) == []
  {
    var before := DefaultSection().(fields := LegacyFields(entries, BEFORE_ANCHOR));
    var after := DefaultSection().(fields := LegacyFields(entries, AFTER_ANCHOR));
    if after.fields != [] then
      if before.fields != [] then
        [before.(id := "default", name := "default", title := "Section 1"),
         after.(id := "section_2", name := "section_2", title := "Section 2", position := AFTER_ANCHOR)]
      else
        [after.(position := AFTER_ANCHOR)]
    else if before.fields != [] then
      [before]
    else
      []
  }

  /** Perform the writes in order; a write the oracle accepts stores the section under its id. */
  function ApplyWrites(sections: map<string, Section>, writes: seq<Section>, accepts: Section -> bool): (r: map<string, Section>)
    ensures (exists s :: s in writes && accepts(s)) ==> r != map[]
    ensures (forall s :: s in writes ==> !accepts(s)) ==> r == sections
    ensures sections.Keys <= r.Keys <= sections.Keys + set s | s in writes :: s.id
    decreases |writes|
  {
    if writes == [] then sections
    else
      var w := writes[0];
      assert forall s :: s in writes ==> s == w || s in writes[1..];
      var next := if accepts(w) then sections[w.id := w] else sections;
      var r := ApplyWrites(next, writes[1..], accepts);
      assert accepts(w) ==> w.id in next.Keys && w.id in r;
      r
  }

  /** A key no accepted write names keeps the section it had. */
  lemma {:induction false} ApplyWritesKeeps(sections: map<string, Section>, writes: seq<Section>, accepts: Section -> bool, k: string)
    requires k in sections
    ensures (forall s :: s in writes && accepts(s) ==> s.id != k) ==>
      var r := ApplyWrites(sections, writes, accepts); k in r && r[k] == sections[k]
    decreases |writes|
  {
    if writes != [] && forall s :: s in writes && accepts(s) ==> s.id != k {
      var w := writes[0];
      var next := if accepts(w) then sections[w.id := w] else sections;
      assert w in writes;
      assert forall s :: s in writes[1..] ==> s in writes;
      ApplyWritesKeeps(next, writes[1..], accepts, k);
    }
  }

  /** Every key the writes add comes from an accepted write with that id. */
  lemma {:induction false} ApplyWritesNewKeys(sections: map<string, Section>, writes: seq<Section>, accepts: Section -> bool, k: string)
    requires k in ApplyWrites(sections, writes, accepts) && k !in sections
    ensures exists s :: s in writes && accepts(s) && s.id == k
    decreases |writes|
  {
    var w := writes[0];
    var next := if accepts(w) then sections[w.id := w] else sections;
    assert w in writes;
    if k !in next {
      ApplyWritesNewKeys(next, writes[1..], accepts, k);
      var s :| s in writes[1..] && accepts(s) && s.id == k;
      assert s in writes;
    }
  }

  /** The write at index `i` is accepted and no later accepted write has its id. */
  predicate LastAcceptedWithId(writes: seq<Section>, i: int, accepts: Section -> bool) {
    && 0 <= i < |writes| && accepts(writes[i])
    && forall j :: i < j < |writes| && accepts(writes[j]) ==> writes[j].id != writes[i].id
  }

  /** The last accepted write with an id is the section stored under that id. */
  lemma {:induction false} ApplyWritesStores(sections: map<string, Section>, writes: seq<Section>, accepts: Section -> bool, i: int)
    requires LastAcceptedWithId(writes, i, accepts)
    ensures var r := ApplyWrites(sections, writes, accepts); writes[i].id in r && r[writes[i].id] == writes[i]
    decreases |writes|
  {
    var w := writes[0];
    var tail := writes[1..];
    var next := if accepts(w) then sections[w.id := w] else sections;
    if i == 0 {
      forall s | s in tail && accepts(s)
        ensures s.id != w.id
      {
        var j :| 0 <= j < |tail| && tail[j] == s;
        assert writes[j + 1] == s;
      }
      ApplyWritesKeeps(next, tail, accepts, w.id);
    } else {
      assert tail[i - 1] == writes[i];
      assert LastAcceptedWithId(tail, i - 1, accepts);
      ApplyWritesStores(next, tail, accepts, i - 1);
    }
  }

  /** The whole migration as a state transition. */
  function Migrate(st: Store, accepts: Section -> bool): (r: Store)
    // Once any section exists, nothing is written.
    ensures st.sections != map[] ==> r == st
    // Unless the legacy option is a non-empty array, nothing is written.
    ensures !(st.legacy.Assoc? && st.legacy.entries != map[]) ==> r == st
    // The legacy option is archived verbatim, or left where it is.
    ensures r.legacy == st.legacy || (r.legacy == Missing && r.backup == st.legacy)
  {
    if st.sections != map[] then st
    else match st.legacy
      case Assoc(entries) =>
        if entries == map[] then st
        else
          var writes := PlannedWrites(entries);
          var sections := ApplyWrites(st.sections, writes, accepts);
          if writes != [] && forall s :: s in writes ==> accepts(s) then
            Store(sections, Missing, st.legacy)
          else
            Store(sections, st.legacy, st.backup)
      case _ => st
  }

  /** The sections the migration tries to write when run on `st`. */
  function AttemptedWrites(st: Store): (w: seq<Section>)
    ensures st.sections != map[] ==> w == []
  {
    if st.sections == map[] && st.legacy.Assoc? && st.legacy.entries != map[] then
      PlannedWrites(st.legacy.entries)
    else []
  }

  // ---------------------------------------------------------------------
  // Properties of the migration

  /**
   * Naming rule: with fields under both anchors, the before-section is written
   * as "default"/"Section 1" and the after-section as "section_2"/"Section 2"
   * after the button; each keeps its legacy fields in their original order.
   */
  lemma BothListsNaming(entries: map<string, LegacyEntry>)
    requires LegacyFields(entries, BEFORE_ANCHOR) != [] && LegacyFields(entries, AFTER_ANCHOR) != []
    ensures var w := PlannedWrites(entries);
      && |w| == 2
      && w[0].id == w[0].name == "default" && w[0].title == "Section 1" && w[0].position == BEFORE_ANCHOR
      && w[0].fields == LegacyFields(entries, BEFORE_ANCHOR)
      && w[1].id == w[1].name == "section_2" && w[1].title == "Section 2" && w[1].position == AFTER_ANCHOR
      && w[1].fields == LegacyFields(entries, AFTER_ANCHOR)
  {
  }

  /**
   * With fields under one anchor only, exactly one section is written and it
   * keeps the default id, name and title; only an after-list moves it after the
   * button. No "section_2" is created.
   */
  lemma SingleListKeepsDefaultId(entries: map<string, LegacyEntry>)
    requires (LegacyFields(entries, BEFORE_ANCHOR) == []) != (LegacyFields(entries, AFTER_ANCHOR) == [])
    ensures var w := PlannedWrites(entries);
      && |w| == 1
      && w[0].id == DefaultSection().id && w[0].name == DefaultSection().name
      && w[0].title == DefaultSection().title
      && w[0].fields == LegacyFields(entries, BEFORE_ANCHOR) + LegacyFields(entries, AFTER_ANCHOR)
      && w[0].position == (if LegacyFields(entries, AFTER_ANCHOR) != [] then AFTER_ANCHOR else BEFORE_ANCHOR)
  {
  }

  /**
   * The legacy option is archived (copied verbatim to the backup, then deleted)
   * exactly when at least one section was planned and every write succeeded;
   * otherwise it stays in place and the backup is untouched.
   */
  lemma ArchiveOnlyOnFullSuccess(st: Store, accepts: Section -> bool)
    requires st.sections == map[] && st.legacy.Assoc? && st.legacy.entries != map[]
    ensures var w := AttemptedWrites(st);
      var r := Migrate(st, accepts);
      if w != [] && forall s :: s in w ==> accepts(s)
      then r.legacy == Missing && r.backup == st.legacy
      else r.legacy == st.legacy && r.backup == st.backup
  {
  }

  /**
   * Once a run has stored any section, every later run, whatever its own
   * writes would do, changes nothing and attempts no write. With the same
   * outcome for every write, running twice is running once.
   */
  lemma MigrationIdempotent(st: Store, a: Section -> bool, b: Section -> bool)
    ensures (exists s :: s in AttemptedWrites(st) && a(s)) ==> Migrate(Migrate(st, a), b) == Migrate(st, a)
    ensures (exists s :: s in AttemptedWrites(st) && a(s)) ==> AttemptedWrites(Migrate(st, a)) == []
    ensures Migrate(Migrate(st, a), a) == Migrate(st, a)
  {
    var once := Migrate(st, a);
    if st.sections == map[] && st.legacy.Assoc? && st.legacy.entries != map[] {
      var writes := PlannedWrites(st.legacy.entries);
      if exists s :: s in writes && a(s) {
        assert once.sections != map[];
      } else {
        RejectedRunChangesNothing(st, a);
      }
    }
  }

  /** A run in which no attempted write succeeds leaves the whole store as it was, so it can be retried. */
  lemma RejectedRunChangesNothing(st: Store, a: Section -> bool)
    ensures (forall s :: s in AttemptedWrites(st) ==> !a(s)) ==> Migrate(st, a) == st
  {
    if st.sections == map[] && st.legacy.Assoc? && st.legacy.entries != map[] {
      var writes := PlannedWrites(st.legacy.entries);
      if forall s :: s in writes ==> !a(s) {
        assert ApplyWrites(st.sections, writes, a) == st.sections;
      }
    }
  }

  /**
   * Up to two writes with different ids, into an empty store, leave exactly
   * the accepted ones, each under its own id.
   */
  lemma StoresExactlyAccepted(writes: seq<Section>, accepts: Section -> bool)
    requires |writes| <= 2 && (|writes| == 2 ==> writes[0].id != writes[1].id)
    ensures var r := ApplyWrites(map[], writes, accepts);
      && (forall s :: s in writes ==> (accepts(s) <==> s.id in r && r[s.id] == s))
      && r.Keys == set s | s in writes && accepts(s) :: s.id
  {
    if |writes| == 2 {
      assert writes == [writes[0], writes[1]];
      StoresTwo(writes[0], writes[1], accepts);
    } else if |writes| == 1 {
      ApplyOne(map[], writes[0], accepts);
      assert writes == [writes[0]];
    }
  }

  lemma StoresTwo(a: Section, b: Section, accepts: Section -> bool)
    requires a.id != b.id
    ensures var r := ApplyWrites(map[], [a, b], accepts);
      && (accepts(a) <==> a.id in r && r[a.id] == a)
      && (accepts(b) <==> b.id in r && r[b.id] == b)
      && r.Keys == set s | s in [a, b] && accepts(s) :: s.id
  {
    ApplyTwo(map[], a, b, accepts);
    var r := ApplyWrites(map[], [a, b], accepts);
    assert r.Keys == (if accepts(a) then {a.id} else {}) + (if accepts(b) then {b.id} else {});
  }

  /**
   * One run stores exactly the attempted sections that were accepted, each
   * under its own id: the two planned ids differ, so a rejected section is
   * never stored and no accepted one is overwritten.
   */
  lemma MigrationStoresAccepted(st: Store, accepts: Section -> bool)
    ensures var r := Migrate(st, accepts);
      && (forall s :: s in AttemptedWrites(st) ==> (accepts(s) <==> s.id in r.sections && r.sections[s.id] == s))
      && r.sections.Keys == st.sections.Keys + set s | s in AttemptedWrites(st) && accepts(s) :: s.id
  {
    if st.sections == map[] && st.legacy.Assoc? && st.legacy.entries != map[] {
      var writes := PlannedWrites(st.legacy.entries);
      assert |writes| == 2 ==> writes[0].id != writes[1].id;
      StoresExactlyAccepted(writes, accepts);
      MigrateRuns(st, accepts);
    }
  }

  /**
   * When one of two writes fails and the other succeeds, the legacy option
   * stays in place but the next run is a no-op, because a section now exists:
   * the failed section is never retried.
   */
  lemma PartialFailureBlocksRetry(st: Store, accepts: Section -> bool)
    requires st.sections == map[] && st.legacy.Assoc? && st.legacy.entries != map[]
    requires var w := AttemptedWrites(st); |w| == 2 && accepts(w[0]) != accepts(w[1])
    ensures Migrate(st, accepts).legacy == st.legacy
    ensures Migrate(st, accepts).sections != map[]
    ensures AttemptedWrites(Migrate(st, accepts)) == []
  {
    var w := AttemptedWrites(st);
    assert w[0] in w && w[1] in w;
  }

  /** A run that reaches the writes: the planned sections are written, then the option archived on full success. */
  lemma MigrateRuns(st: Store, accepts: Section -> bool)
    requires st.sections == map[] && st.legacy.Assoc? && st.legacy.entries != map[]
    ensures var writes := PlannedWrites(st.legacy.entries);
      var sections := ApplyWrites(st.sections, writes, accepts);
      Migrate(st, accepts)
        == if writes != [] && forall s :: s in writes ==> accepts(s)
           then Store(sections, Missing, st.legacy)
           else Store(sections, st.legacy, st.backup)
  {
  }

  /** One planned write: it is stored iff accepted, and every write succeeded iff it did. */
  lemma ApplyOne(sections: map<string, Section>, a: Section, accepts: Section -> bool)
    ensures ApplyWrites(sections, [a], accepts) == if accepts(a) then sections[a.id := a] else sections
    ensures (forall s :: s in [a] ==> accepts(s)) == accepts(a)
  {
    assert [a][1..] == [];
  }

  /** Two planned writes, in order: the second sees the first's outcome. */
  lemma ApplyTwo(sections: map<string, Section>, a: Section, b: Section, accepts: Section -> bool)
    ensures var first := if accepts(a) then sections[a.id := a] else sections;
      ApplyWrites(sections, [a, b], accepts) == if accepts(b) then first[b.id := b] else first
    ensures (forall s :: s in [a, b] ==> accepts(s)) == (accepts(a) && accepts(b))
  {
    var first := if accepts(a) then sections[a.id := a] else sections;
    assert [a, b][1..] == [b];
    ApplyOne(first, b, accepts);
  }

  /**
   * A fresh default section filled by `add_field`, one legacy field at a time:
   * it holds exactly those fields, in their order.
   */
  method SectionWithFields(fields: seq<Field>) returns (s: Section)
    ensures s == DefaultSection().(fields := fields)
  {
    s := DefaultSection();
    var i := 0;
    while i < |fields|
      invariant 0 <= i <= |fields|
      invariant s == DefaultSection().(fields := fields[..i])
    {
      s := AddField(s, fields[i]);
      i := i + 1;
    }
    assert fields[..i] == fields;
  }

  // ---------------------------------------------------------------------
  // The store as the plugin updates it

  class SettingsStore {
    var sections: map<string, Section>  // what `THWEPOF_Utils::get_sections` returns
    var legacy: OptionValue             // option thwepof_custom_product_fields
    var backup: OptionValue             // option thwepof_custom_product_fields_bkp

    function State(): Store
      reads this
    {
      Store(sections, legacy, backup)
    }

    constructor (st: Store)
      ensures State() == st
    {
      sections, legacy, backup := st.sections, st.legacy, st.backup;
    }

    /** `THWEPOF_Utils::update_section`: the oracle decides; a success stores the section. */
    method UpdateSection(s: Section, accepts: Section -> bool) returns (ok: bool)
      modifies this`sections
      ensures ok == accepts(s)
      ensures sections == if ok then old(sections)[s.id := s] else old(sections)
    {
      ok := accepts(s);
      if ok {
        sections := sections[s.id := s];
      }
    }

    /** `may_copy_older_version_settings`. */
    method MayCopyOlderVersionSettings(accepts: Section -> bool)
      modifies this
      ensures State() == Migrate(old(State()), accepts)
    {
      if sections != map[] {
        return;
      }
      if !legacy.Assoc? || legacy.entries == map[] {
        return;
      }
      var custom := legacy.entries;
      var fieldsBefore := LegacyFields(custom, BEFORE_ANCHOR);
      var fieldsAfter := LegacyFields(custom, AFTER_ANCHOR);

      var sectionBefore := SectionWithFields(fieldsBefore);
      var sectionAfter := SectionWithFields(fieldsAfter);

      ghost var writes := PlannedWrites(custom);
      ghost var start := sections;
      var result1, result2 := false, false;
      if sectionAfter.fields != [] {
        if sectionBefore.fields != [] {
          sectionBefore := sectionBefore.(id := "default", name := "default", title := "Section 1");
          sectionAfter := sectionAfter.(id := "section_2", name := "section_2", title := "Section 2");
          result1 := UpdateSection(sectionBefore, accepts);
        } else {
          result1 := true;
        }
        sectionAfter := sectionAfter.(position := AFTER_ANCHOR);
        result2 := UpdateSection(sectionAfter, accepts);
        if sectionBefore.fields != [] {
          assert writes == [sectionBefore, sectionAfter];
          ApplyTwo(start, sectionBefore, sectionAfter, accepts);
        } else {
          assert writes == [sectionAfter];
          ApplyOne(start, sectionAfter, accepts);
        }
      } else if sectionBefore.fields != [] {
        result1 := UpdateSection(sectionBefore, accepts);
        result2 := true;
        assert writes == [sectionBefore];
        ApplyOne(start, sectionBefore, accepts);
      } else {
        assert writes == [];
      }

      MigrateRuns(old(State()), accepts);
      if result1 && result2 {
        backup := legacy;
        legacy := Missing;
      }
    }
  }
}
