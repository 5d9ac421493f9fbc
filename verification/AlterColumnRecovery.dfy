/** Undoing a partly applied ALTER COLUMN on the columns of a table. */
module AlterColumnRecovery {
  import opened Expressions

  /** listed: neither a system nor a virtual column. */
  datatype Column = Column(id: int, name: string, ty: Type, listed: bool)

  type Columns = map<int, Column>

  datatype Altered = Altered(was: Column, became: Column)

  /** What was recorded before the change began; dictionaries and data are not part of it. */
  datatype Record = Record(added: seq<Column>, renamed: seq<Column>, altered: seq<Altered>)

  function Upper(s: string): string {
    if s == "" then ""
    else [if 'a' <= s[0] <= 'z' then s[0] - ('a' - 'A') else s[0]] + Upper(s[1..])
  }

  /** The same letter, or one is a lower-case letter and the other its upper case. */
  predicate SameLetter(c: char, d: char) {
    || c == d
    || ('a' <= c <= 'z' && c as int == d as int + 32)
    || ('a' <= d <= 'z' && d as int == c as int + 32)
  }

  /** Names are the same in upper case exactly when they are letter by letter. */
  lemma {:induction false} UpperSameIff(s: string, t: string)
    ensures Upper(s) == Upper(t) <==> |s| == |t| && forall k | 0 <= k < |s| :: SameLetter(s[k], t[k])
  {
    UpperLength(s);
    UpperLength(t);
    if s != "" && t != "" {
      UpperSameIff(s[1..], t[1..]);
      assert Upper(s)[1..] == Upper(s[1..]) && Upper(t)[1..] == Upper(t[1..]);
      assert Upper(s)[0] == Upper(t)[0] <==> SameLetter(s[0], t[0]);
      if |s| == |t| && forall k | 0 <= k < |s| :: SameLetter(s[k], t[k]) {
        forall k | 0 <= k < |s[1..]| ensures SameLetter(s[1..][k], t[1..][k]) {
          assert SameLetter(s[k + 1], t[k + 1]);
        }
        assert Upper(s) == [Upper(s)[0]] + Upper(s[1..]);
      }
      if Upper(s) == Upper(t) {
        forall k | 0 <= k < |s| ensures SameLetter(s[k], t[k]) {
          if k > 0 { assert SameLetter(s[1..][k - 1], t[1..][k - 1]); }
        }
      }
    }
  }

  lemma {:induction false} UpperLength(s: string)
    ensures |Upper(s)| == |s|
  {
    if s != "" { UpperLength(s[1..]); }
  }

  // ---------------------------------------------------------------- the catalog

  /** The two maps of the catalog agree; so no two columns share a name up to case. */
  ghost predicate Indexed(columns: Columns, names: map<string, int>) {
    && (forall id | id in columns ::
          columns[id].id == id && Upper(columns[id].name) in names && names[Upper(columns[id].name)] == id)
    && (forall n | n in names :: names[n] in columns && Upper(columns[names[n]].name) == n)
  }

  ghost predicate DistinctNames(columns: Columns) {
    forall i, j | i in columns && j in columns && Upper(columns[i].name) == Upper(columns[j].name) :: i == j
  }

  datatype State = State(columns: Columns, names: map<string, int>)

  /** The log grew, and in every state it gained the two maps agree. */
  ghost predicate AgreedSince(was: seq<State>, log: seq<State>) {
    was <= log && forall k | |was| <= k < |log| :: Indexed(log[k].columns, log[k].names)
  }

  method Pick<T(==)>(s: set<T>) returns (x: T)
    requires s != {}
    ensures x in s
  {
    x :| x in s;
  }

  class Catalog {
    var columns: Columns
    var names: map<string, int>
    /** The state after each change. */
    ghost var log: seq<State>

    ghost predicate Valid()
      reads this
    {
      Indexed(columns, names)
    }

    /** The ids of the columns listed, in no particular order. */
    method ListColumns() returns (ids: seq<int>)
      ensures forall id :: id in ids <==> id in columns && columns[id].listed
    {
      ids := [];
      var rest := columns.Keys;
      while rest != {}
        invariant rest <= columns.Keys
        invariant forall id :: id in ids <==> id in columns && id !in rest && columns[id].listed
        decreases |rest|
      {
        var id := Pick(rest);
        rest := rest - {id};
        if columns[id].listed {
          ids := ids + [id];
        }
      }
    }

    method DropColumn(c: Column)
      requires Valid() && c.id in columns && columns[c.id] == c
      modifies this
      ensures Valid() && columns == old(columns) - {c.id}
      ensures log == old(log) + [State(columns, names)]
    {
      var found := names[Upper(c.name)];
      names := names - {Upper(c.name)};
      columns := columns - {found};
      log := log + [State(columns, names)];
    }

    /** An entry under the new name is overwritten, so the indexes agree afterwards exactly when
        the name was free or the column's own. */
    method RenameColumn(id: int, name: string)
      requires Valid() && id in columns
      modifies this
      ensures columns == old(columns)[id := old(columns)[id].(name := name)]
      ensures Valid() <==> Upper(name) !in old(names) || old(names)[Upper(name)] == id
      ensures log == old(log) + [State(columns, names)]
    {
      var found := names[Upper(columns[id].name)];
      names := names - {Upper(columns[id].name)};
      columns := columns[found := columns[found].(name := name)];
      names := names[Upper(name) := found];
      log := log + [State(columns, names)];
      ghost var was := old(names);
      if Upper(name) in was && was[Upper(name)] != id {
        assert Upper(columns[was[Upper(name)]].name) == Upper(name);
      }
    }

    /** The column must be known under the id and under the name; its entries are replaced. */
    method AlterColumnType(c: Column)
      requires Valid() && c.id in columns && Upper(columns[c.id].name) == Upper(c.name)
      modifies this
      ensures Valid() && columns == old(columns)[c.id := c]
      ensures log == old(log) + [State(columns, names)]
    {
      names := names[Upper(c.name) := c.id];
      columns := columns[c.id := c];
      log := log + [State(columns, names)];
    }
  }

  method Find(ids: seq<int>, id: int) returns (k: nat)
    ensures k <= |ids| && (k < |ids| ==> ids[k] == id) && (k == |ids| <==> id !in ids)
  {
    k := 0;
    while k < |ids| && ids[k] != id
      invariant k <= |ids| && id !in ids[..k]
    {
      k := k + 1;
    }
  }

  // ---------------------------------------------------------------- what a record undoes

  function Ids(cs: seq<Column>): set<int> {
    set k | 0 <= k < |cs| :: cs[k].id
  }

  function AlteredIds(ps: seq<Altered>): set<int> {
    set k | 0 <= k < |ps| :: ps[k].was.id
  }

  function UpperNames(columns: Columns): set<string> {
    set id | id in columns :: Upper(columns[id].name)
  }

  /** The columns are those of before, but for names and types of those still to be put back;
      such a name is none of before's. */
  ghost predicate Restoring(before: Columns, columns: Columns, names: set<int>, types: set<int>) {
    columns.Keys == before.Keys &&
    forall id | id in before ::
      && columns[id].id == before[id].id == id && columns[id].listed == before[id].listed
      && (columns[id].name == before[id].name || (id in names && Upper(columns[id].name) !in UpperNames(before)))
      && (columns[id].ty == before[id].ty || id in types)
  }

  predicate DistinctIds(cs: seq<Column>) {
    forall i, j | 0 <= i < j < |cs| :: cs[i].id != cs[j].id
  }

  /** The record was made of before: new ids for what is to be added, old names, old descriptors. */
  ghost predicate RecordOf(before: Columns, record: Record) {
    && DistinctIds(record.added) && Ids(record.added) !! before.Keys
    && (forall c | c in record.renamed ::
          c.id in before && before[c.id] == c && c.listed && c.id !in AlteredIds(record.altered))
    && (forall p | p in record.altered ::
          p.was.id in before && before[p.was.id] == p.was && p.was.listed && p.became.id == p.was.id)
  }

  /** Some of the columns to be added are there, and of the renames and changes of type any may have
      happened. */
  ghost predicate PartlyApplied(before: Columns, now: Columns, record: Record) {
    Restoring(before, now - Ids(record.added), Ids(record.renamed), AlteredIds(record.altered))
  }

  /** The column is one of those listed. */
  predicate IsListed(columns: Columns, id: int) {
    id in columns && columns[id].listed
  }

  predicate AllListed(columns: Columns, cs: seq<Column>) {
    forall c | c in cs :: IsListed(columns, c.id)
  }

  lemma RestoredIsBefore(before: Columns, columns: Columns)
    requires Restoring(before, columns, {}, {})
    ensures columns == before
  {
    forall id | id in before ensures columns[id] == before[id] {
      assert columns[id].name == before[id].name;
    }
  }

  /** An old name is free for its column. */
  lemma OldNameIsFree(before: Columns, columns: Columns, index: map<string, int>, names: set<int>,
      types: set<int>, id: int)
    requires Restoring(before, columns, names, types) && Indexed(columns, index) && DistinctNames(before)
             && id in before
    ensures Upper(before[id].name) in index ==> index[Upper(before[id].name)] == id
  {
  }

  lemma NamePutBack(before: Columns, columns: Columns, names: set<int>, types: set<int>, id: int)
    requires Restoring(before, columns, names, types) && id in before
    ensures Restoring(before, columns[id := columns[id].(name := before[id].name)], names - {id}, types)
    ensures columns[id].name == before[id].name ==> Restoring(before, columns, names - {id}, types)
  {
  }

  lemma TypePutBack(before: Columns, columns: Columns, names: set<int>, types: set<int>, id: int)
    requires Restoring(before, columns, names, types) && id in before
    ensures Restoring(before, columns[id := before[id]], names, types - {id})
  {
  }

  // ---------------------------------------------------------------- rollback

  /** How many of the columns, from the front, are listed. */
  function ListedPrefix(columns: Columns, cs: seq<Column>): (k: nat)
    ensures k <= |cs| && AllListed(columns, cs[..k]) && (k < |cs| ==> !IsListed(columns, cs[k].id))
  {
    if cs == [] || !IsListed(columns, cs[0].id) then 0
    else
      var k := ListedPrefix(columns, cs[1..]);
      assert cs[..k + 1] == [cs[0]] + cs[1..][..k];
      k + 1
  }

  /** Fails where the search for a column ends past the list; the columns before it are dropped. */
  method DropAdded(catalog: Catalog, added: seq<Column>, cds: seq<int>) returns (ok: bool, left: seq<int>)
    requires catalog.Valid() && DistinctIds(added)
    requires forall id :: id in cds <==> IsListed(catalog.columns, id)
    modifies catalog
    ensures catalog.Valid() && AgreedSince(old(catalog.log), catalog.log)
    ensures ok <==> AllListed(old(catalog.columns), added)
    ensures catalog.columns == old(catalog.columns) - Ids(added[..ListedPrefix(old(catalog.columns), added)])
    ensures ok ==> catalog.columns == old(catalog.columns) - Ids(added)
    ensures ok ==> forall id | id in cds && id !in Ids(added) :: id in left
  {
    left := cds;
    ghost var was := catalog.columns;
    for k := 0 to |added|
      invariant catalog.Valid() && AgreedSince(old(catalog.log), catalog.log)
      invariant catalog.columns == was - Ids(added[..k]) && AllListed(was, added[..k])
      invariant forall id | id in left :: id in cds
      invariant forall id | id in cds && id !in Ids(added[..k]) :: id in left
    {
      var id := added[k].id;
      assert id !in Ids(added[..k]);
      var at := Find(left, id);
      if at == |left| {
        FirstUnlisted(was, added, k);
        return false, left;
      }
      IdsGrow(added, k);
      catalog.DropColumn(catalog.columns[left[at]]);
      left := left[..at] + left[at + 1..];
    }
    assert added[..|added|] == added;
    PrefixIsAll(was, added);
    return true, left;
  }

  lemma FirstUnlisted(columns: Columns, cs: seq<Column>, k: nat)
    requires k < |cs| && AllListed(columns, cs[..k]) && !IsListed(columns, cs[k].id)
    ensures ListedPrefix(columns, cs) == k && !AllListed(columns, cs)
  {
    assert cs[k] in cs;
  }

  lemma PrefixIsAll(columns: Columns, cs: seq<Column>)
    requires AllListed(columns, cs)
    ensures cs[..ListedPrefix(columns, cs)] == cs
  {
  }

  lemma IdsGrow(cs: seq<Column>, k: nat)
    requires k < |cs|
    ensures Ids(cs[..k + 1]) == Ids(cs[..k]) + {cs[k].id}
    ensures Ids(cs[k..]) - {cs[k].id} <= Ids(cs[k + 1..])
  {
  }

  method RenameBack(catalog: Catalog, renamed: seq<Column>, cds: seq<int>, ghost before: Columns, ghost types: set<int>)
    requires catalog.Valid() && DistinctNames(before) && Restoring(before, catalog.columns, Ids(renamed), types)
    requires forall c | c in renamed :: c.id in before && before[c.id].name == c.name && c.id in cds
    modifies catalog
    ensures catalog.Valid() && Restoring(before, catalog.columns, {}, types)
    ensures AgreedSince(old(catalog.log), catalog.log)
  {
    for k := 0 to |renamed|
      invariant catalog.Valid() && Restoring(before, catalog.columns, Ids(renamed[k..]), types)
      invariant AgreedSince(old(catalog.log), catalog.log)
    {
      var c := renamed[k];
      assert c in renamed;
      var at := Find(cds, c.id);
      NamePutBack(before, catalog.columns, Ids(renamed[k..]), types, c.id);
      OldNameIsFree(before, catalog.columns, catalog.names, Ids(renamed[k..]), types, c.id);
      if at < |cds| {
        if catalog.columns[cds[at]].name != c.name {
          catalog.RenameColumn(cds[at], c.name);
        }
      }
      IdsGrow(renamed, k);
      FewerPending(before, catalog.columns, Ids(renamed[k..]) - {c.id}, types, Ids(renamed[k + 1..]), types);
    }
    assert Ids(renamed[|renamed|..]) == {};
  }

  lemma FewerPending(before: Columns, columns: Columns, names: set<int>, types: set<int>, names': set<int>,
      types': set<int>)
    requires Restoring(before, columns, names, types) && names <= names' && types <= types'
    ensures Restoring(before, columns, names', types')
  {
  }

  method UndoAltered(catalog: Catalog, altered: seq<Altered>, cds: seq<int>, ghost before: Columns)
    requires catalog.Valid() && Restoring(before, catalog.columns, {}, AlteredIds(altered))
    requires forall p | p in altered ::
               p.was.id in before && before[p.was.id] == p.was && p.became.id == p.was.id && p.was.id in cds
    modifies catalog
    ensures catalog.Valid() && catalog.columns == before && AgreedSince(old(catalog.log), catalog.log)
  {
    for k := 0 to |altered|
      invariant catalog.Valid() && Restoring(before, catalog.columns, {}, AlteredIds(altered[k..]))
      invariant AgreedSince(old(catalog.log), catalog.log)
    {
      var p := altered[k];
      assert p in altered;
      var at := Find(cds, p.became.id);
      TypePutBack(before, catalog.columns, {}, AlteredIds(altered[k..]), p.was.id);
      assert catalog.columns[p.was.id].name == p.was.name;
      if at < |cds| {
        catalog.AlterColumnType(p.was);
      }
      AlteredIdsShrink(altered, k);
      FewerPending(before, catalog.columns, {}, AlteredIds(altered[k..]) - {p.was.id}, {},
          AlteredIds(altered[k + 1..]));
    }
    assert AlteredIds(altered[|altered|..]) == {};
    RestoredIsBefore(before, catalog.columns);
  }

  lemma AlteredIdsShrink(ps: seq<Altered>, k: nat)
    requires k < |ps|
    ensures AlteredIds(ps[k..]) - {ps[k].was.id} <= AlteredIds(ps[k + 1..])
  {
  }

  /** Whatever part of the recorded change had happened: rollback goes through exactly when every
      column to be added is listed, and then the table is as it was before. Otherwise it fails after
      dropping those before the first missing. The two maps agree after every step. */
  method Rollback(catalog: Catalog, record: Record, ghost before: Columns) returns (ok: bool)
    requires catalog.Valid() && DistinctNames(before) && RecordOf(before, record)
    requires PartlyApplied(before, catalog.columns, record)
    modifies catalog
    ensures catalog.Valid() && AgreedSince(old(catalog.log), catalog.log)
    ensures ok <==> AllListed(old(catalog.columns), record.added)
    ensures ok ==> catalog.columns == before
    ensures !ok ==> catalog.columns ==
                    old(catalog.columns) - Ids(record.added[..ListedPrefix(old(catalog.columns), record.added)])
  {
    var cds := catalog.ListColumns();
    Listed(before, catalog.columns, record);
    ok, cds := DropAdded(catalog, record.added, cds);
    if ok {
      RenameBack(catalog, record.renamed, cds, before, AlteredIds(record.altered));
      UndoAltered(catalog, record.altered, cds, before);
    }
  }

  lemma Listed(before: Columns, now: Columns, record: Record)
    requires RecordOf(before, record) && PartlyApplied(before, now, record)
    ensures forall c | c in record.renamed :: IsListed(now, c.id) && c.id !in Ids(record.added)
    ensures forall p | p in record.altered :: IsListed(now, p.was.id) && p.was.id !in Ids(record.added)
  {
  }

  // ---------------------------------------------------------------- how far the change had come

  function NewType(altered: seq<Altered>, id: int, ty: Type): Type {
    if altered == [] then ty
    else if altered[0].was.id == id then altered[0].became.ty
    else NewType(altered[1..], id, ty)
  }

  function AddedUnder(added: seq<Column>, id: int): Column
    requires id in Ids(added)
  {
    if added[0].id == id then added[0]
    else
      assert id in Ids(added[1..]) by {
        var k :| 0 <= k < |added| && added[k].id == id;
        assert added[1..][k - 1].id == id;
      }
      AddedUnder(added[1..], id)
  }

  /** The table after some renames, the first k additions and some changes of type. */
  function Applied(before: Columns, record: Record, temporary: map<int, string>, renames: set<int>, k: nat,
      types: set<int>): Columns
    requires k <= |record.added|
  {
    map id | id in before.Keys + Ids(record.added[..k]) ::
      if id in before then
        before[id].(name := if id in renames && id in temporary then temporary[id] else before[id].name,
                    ty := if id in types then NewType(record.altered, id, before[id].ty) else before[id].ty)
      else if id in Ids(record.added[..k]) then AddedUnder(record.added[..k], id)
      else Column(id, "", Type(Int, 0, 0, false), false)
  }

  /** Of the columns of before that were renamed, and of the k added, no two have one name; and a name
      of before was given to an added column only after its owner had been renamed. */
  ghost predicate NamesFree(before: Columns, record: Record, temporary: map<int, string>, renames: set<int>, k: nat)
    requires k <= |record.added|
  {
    var added := record.added[..k];
    && DistinctNames(before)
    && (forall c, c' | c in added && c' in added && Upper(c.name) == Upper(c'.name) :: c == c')
    && (forall c, id | c in added && id in before && Upper(before[id].name) == Upper(c.name) ::
          id in renames && id in temporary)
    && (forall i, j | i in temporary && j in temporary && Upper(temporary[i]) == Upper(temporary[j]) :: i == j)
    && (forall c, id | c in added && id in temporary :: Upper(temporary[id]) != Upper(c.name))
  }

  ghost function IndexByName(columns: Columns): map<string, int>
    requires DistinctNames(columns)
  {
    map id | id in columns :: Upper(columns[id].name) := id
  }

  /** A change that stopped after any renames, any changes of type and the first k additions is one
      that rollback may be called for, and rollback goes through exactly if these were all. */
  lemma CoversExactly(before: Columns, record: Record, temporary: map<int, string>, renames: set<int>, k: nat,
      types: set<int>)
    requires RecordOf(before, record) && k <= |record.added| && (forall id | id in before :: before[id].id == id)
    requires forall c | c in record.added :: c.listed
    requires renames <= Ids(record.renamed) && types <= AlteredIds(record.altered)
    requires forall id | id in temporary :: Upper(temporary[id]) !in UpperNames(before)
    ensures var now := Applied(before, record, temporary, renames, k, types);
            PartlyApplied(before, now, record) && (AllListed(now, record.added) <==> k == |record.added|)
    ensures var now := Applied(before, record, temporary, renames, k, types);
            NamesFree(before, record, temporary, renames, k) ==> DistinctNames(now) && Indexed(now, IndexByName(now))
  {
    AppliedIsPartly(before, record, temporary, renames, k, types);
    AppliedListsAllIff(before, record, temporary, renames, k, types);
    if NamesFree(before, record, temporary, renames, k) {
      AppliedIsIndexed(before, record, temporary, renames, k, types);
    }
    hide *;
  }

  lemma AppliedIsPartly(before: Columns, record: Record, temporary: map<int, string>, renames: set<int>, k: nat,
      types: set<int>)
    requires RecordOf(before, record) && k <= |record.added| && (forall id | id in before :: before[id].id == id)
    requires renames <= Ids(record.renamed) && types <= AlteredIds(record.altered)
    requires forall id | id in temporary :: Upper(temporary[id]) !in UpperNames(before)
    ensures PartlyApplied(before, Applied(before, record, temporary, renames, k, types), record)
  {
    assert Ids(record.added[..k]) <= Ids(record.added);
  }

  lemma AppliedListsAllIff(before: Columns, record: Record, temporary: map<int, string>, renames: set<int>, k: nat,
      types: set<int>)
    requires RecordOf(before, record) && k <= |record.added| && forall c | c in record.added :: c.listed
    ensures AllListed(Applied(before, record, temporary, renames, k, types), record.added) <==> k == |record.added|
  {
    var now := Applied(before, record, temporary, renames, k, types);
    if k < |record.added| {
      assert record.added[k].id in Ids(record.added) && record.added[k].id !in Ids(record.added[..k]);
      assert record.added[k] in record.added && record.added[k].id !in now;
    } else {
      assert record.added[..k] == record.added;
      forall c | c in record.added ensures IsListed(now, c.id) {
        var j :| 0 <= j < |record.added| && record.added[j] == c;
        assert c.id in Ids(record.added);
        AddedIsThere(record.added, c.id);
      }
    }
  }

  lemma AppliedIsIndexed(before: Columns, record: Record, temporary: map<int, string>, renames: set<int>, k: nat,
      types: set<int>)
    requires RecordOf(before, record) && k <= |record.added| && (forall id | id in before :: before[id].id == id)
    requires forall id | id in temporary :: Upper(temporary[id]) !in UpperNames(before)
    requires NamesFree(before, record, temporary, renames, k)
    ensures var now := Applied(before, record, temporary, renames, k, types);
            DistinctNames(now) && Indexed(now, IndexByName(now))
  {
    var now := Applied(before, record, temporary, renames, k, types);
    forall id | id in now ensures now[id].id == id && Origin(before, record, temporary, renames, k, id, now[id]) {
      OriginOf(before, record, temporary, renames, k, types, id);
    }
    forall i, j | i in now && j in now && Upper(now[i].name) == Upper(now[j].name) ensures i == j {
      OriginsDiffer(before, record, temporary, renames, k, i, now[i], j, now[j]);
    }
    hide *;
    MapsAgree(now);
  }

  lemma MapsAgree(columns: Columns)
    requires DistinctNames(columns) && forall id | id in columns :: columns[id].id == id
    ensures Indexed(columns, IndexByName(columns))
  {
  }

  /** Where the column with this id has its name from. */
  predicate Origin(before: Columns, record: Record, temporary: map<int, string>, renames: set<int>, k: nat, id: int,
      c: Column)
    requires k <= |record.added|
  {
    if id in before then c.name == if id in renames && id in temporary then temporary[id] else before[id].name
    else c in record.added[..k] && c.id == id
  }

  lemma OriginOf(before: Columns, record: Record, temporary: map<int, string>, renames: set<int>, k: nat,
      types: set<int>, id: int)
    requires k <= |record.added| && id in Applied(before, record, temporary, renames, k, types)
    requires id in before ==> before[id].id == id
    ensures var c := Applied(before, record, temporary, renames, k, types)[id];
            c.id == id && Origin(before, record, temporary, renames, k, id, c)
  {
    if id !in before {
      AddedIsThere(record.added[..k], id);
    }
  }

  lemma OriginsDiffer(before: Columns, record: Record, temporary: map<int, string>, renames: set<int>, k: nat,
      i: int, c: Column, j: int, c': Column)
    requires k <= |record.added| && NamesFree(before, record, temporary, renames, k)
    requires forall id | id in temporary :: Upper(temporary[id]) !in UpperNames(before)
    requires Origin(before, record, temporary, renames, k, i, c) && Origin(before, record, temporary, renames, k, j, c')
    requires Upper(c.name) == Upper(c'.name)
    ensures i == j
  {
    hide Upper;
    assert i in before ==> Upper(before[i].name) in UpperNames(before);
    assert j in before ==> Upper(before[j].name) in UpperNames(before);
  }

  lemma {:induction false} AddedIsThere(added: seq<Column>, id: int)
    requires id in Ids(added)
    ensures AddedUnder(added, id) in added && AddedUnder(added, id).id == id
  {
    if added[0].id != id {
      var k :| 0 <= k < |added| && added[k].id == id;
      assert added[1..][k - 1].id == id;
      AddedIsThere(added[1..], id);
    }
  }
}
