/**
 * The doctor table and the repository queries the service relies on.
 * The repository interface itself is declarative (Spring Data); each query
 * is given here the meaning its name states, as a function of the table.
 */
module Repositories {

  import opened Wrappers
  import opened Entities

  /**
   * Foreign keys held by the other tables: each segretario, paziente and
   * prenotazione id is mapped to the id of the medico it belongs to.
   */
  datatype Links = Links(
    segretarioMedico: map<nat, nat>,
    pazienteMedico: map<nat, nat>,
    prenotazioneMedico: map<nat, nat>)

  /** Every row is stored under its own id. */
  ghost predicate KeyedById(rows: map<nat, Medico>) {
    forall id :: id in rows ==> rows[id].id == id
  }

  /** The table invariant: rows keyed by id, every id below the next identity value. */
  ghost predicate WellFormed(rows: map<nat, Medico>, nextId: nat) {
    KeyedById(rows) && forall id :: id in rows ==> id < nextId
  }

  /** The ids along `s` strictly increase; in particular no row occurs twice. */
  predicate IdsIncreasing(s: seq<Medico>) {
    forall i, j :: 0 <= i < j < |s| ==> s[i].id < s[j].id
  }

  /** The rows whose id is below `n`, in increasing id order. */
  function RowsBelow(rows: map<nat, Medico>, n: nat): (r: seq<Medico>)
    requires KeyedById(rows)
    ensures forall m :: m in r <==> m.id < n && m.id in rows && rows[m.id] == m
    ensures IdsIncreasing(r)
  {
    if n == 0 then []
    else RowsBelow(rows, n - 1) + (if n - 1 in rows then [rows[n - 1]] else [])
  }

  /** The elements of `s` that satisfy `p`, in their order in `s`. */
  function Filter(s: seq<Medico>, p: Medico -> bool): (r: seq<Medico>)
    ensures forall m :: m in r <==> m in s && p(m)
    ensures |r| <= |s|
    ensures IdsIncreasing(s) ==> IdsIncreasing(r)
  {
    if s == [] then []
    else
      var rest := Filter(s[1..], p);
      if IdsIncreasing(s) then
        TailIncreasing(s);
        HeadIsMinimum(s);
        PrependIncreasing(s[0], rest);
        (if p(s[0]) then [s[0]] else []) + rest
      else
        (if p(s[0]) then [s[0]] else []) + rest
  }

  /** The tail of an id-ordered sequence is id-ordered. */
  lemma TailIncreasing(s: seq<Medico>)
    requires s != [] && IdsIncreasing(s)
    ensures IdsIncreasing(s[1..])
  {
    forall i, j | 0 <= i < j < |s[1..]| ensures s[1..][i].id < s[1..][j].id {
      assert s[1..][i] == s[i + 1] && s[1..][j] == s[j + 1];
    }
  }

  /** In an id-ordered sequence the head has the lowest id, and only the head has it. */
  lemma HeadIsMinimum(s: seq<Medico>)
    requires s != [] && IdsIncreasing(s)
    ensures forall m :: m in s ==> s[0].id <= m.id
    ensures forall m :: m in s[1..] ==> s[0].id < m.id
    ensures forall m :: m in s && m.id == s[0].id ==> m == s[0]
  {
    forall m | m in s ensures s[0].id <= m.id && (m.id == s[0].id ==> m == s[0]) {
      var k :| 0 <= k < |s| && s[k] == m;
      assert k == 0 || s[0].id < s[k].id;
    }
    forall m | m in s[1..] ensures s[0].id < m.id {
      var k :| 0 <= k < |s[1..]| && s[1..][k] == m;
      assert s[k + 1] == m;
    }
  }

  /** Putting a row in front of an id-ordered sequence of higher ids keeps it id-ordered. */
  lemma PrependIncreasing(x: Medico, t: seq<Medico>)
    requires IdsIncreasing(t)
    requires forall m :: m in t ==> x.id < m.id
    ensures IdsIncreasing([x] + t)
  {
    forall i, j | 0 <= i < j < |[x] + t| ensures ([x] + t)[i].id < ([x] + t)[j].id {
      assert ([x] + t)[j] == t[j - 1];
      if i > 0 {
        assert ([x] + t)[i] == t[i - 1];
      } else {
        assert t[j - 1] in t;
      }
    }
  }

  /**
   * Two id-ordered sequences with the same elements are equal: an id-ordered
   * listing is determined by which rows it holds.
   */
  lemma {:induction false} SameElementsIncreasing(a: seq<Medico>, b: seq<Medico>)
    requires IdsIncreasing(a) && IdsIncreasing(b)
    requires forall m :: m in a <==> m in b
    ensures a == b
  {
    assert b == [] || b[0] in b;
    if a != [] {
      assert a[0] in b && b[0] in a;
      HeadIsMinimum(a);
      HeadIsMinimum(b);
      assert a[0] == b[0];
      TailIncreasing(a);
      TailIncreasing(b);
      assert a == [a[0]] + a[1..] && b == [b[0]] + b[1..];
      forall m ensures m in a[1..] <==> m in b[1..] {
        if m in a[1..] {
          assert m in a && m != a[0];
          assert m in b;
        }
        if m in b[1..] {
          assert m in b && m != b[0];
          assert m in a;
        }
      }
      SameElementsIncreasing(a[1..], b[1..]);
      assert a == [a[0]] + a[1..] && b == [b[0]] + b[1..];
    }
  }

  /** Nothing is kept when no element satisfies `p`. */
  lemma {:induction false} FilterNone(s: seq<Medico>, p: Medico -> bool)
    requires forall m :: m in s ==> !p(m)
    ensures Filter(s, p) == []
  {
    if s != [] {
      FilterNone(s[1..], p);
    }
  }

  /** `findById`: the row stored under `id`, whatever its status. */
  function FindById(rows: map<nat, Medico>, id: nat): (r: Option<Medico>)
    ensures r.Some? <==> id in rows
    ensures r.Some? ==> r.value == rows[id]
  {
    if id in rows then Some(rows[id]) else None
  }

  /** `findByRecordStatus`: the stored rows with status `s`, each once, in id order. */
  function FindByRecordStatus(rows: map<nat, Medico>, nextId: nat, s: RecordStatus): (r: seq<Medico>)
    requires WellFormed(rows, nextId)
    ensures forall m :: m in r <==> m.id in rows && rows[m.id] == m && m.recordStatus == s
    ensures IdsIncreasing(r)
  {
    Filter(RowsBelow(rows, nextId), (m: Medico) => m.recordStatus == s)
  }

  /**
   * `findByEmail`: the row with that email, whatever its status. The query
   * names no tie-break; should several rows share the email (which a unique
   * email column would exclude), this model takes the one with the lowest id.
   */
  function FindByEmail(rows: map<nat, Medico>, nextId: nat, email: string): (r: Option<Medico>)
    requires WellFormed(rows, nextId)
    ensures r.Some? ==> r.value.id in rows && rows[r.value.id] == r.value && r.value.email == email
    ensures r.None? <==> forall id :: id in rows ==> rows[id].email != email
    ensures r.Some? ==> forall id :: id in rows && rows[id].email == email ==> r.value.id <= id
  {
    var p := (m: Medico) => m.email == email;
    var hits := Filter(RowsBelow(rows, nextId), p);
    if |hits| == 0 then
      assert forall id :: id in rows ==> rows[id] !in hits;
      None
    else
      assert hits[0] in hits;
      assert forall id :: id in rows && rows[id].email == email ==> rows[id] in hits;
      LowestIdFirst(hits, RowsBelow(rows, nextId), p);
      Some(hits[0])
  }

  /** The head of a filtered, id-ordered sequence has the lowest id among the kept elements. */
  lemma {:induction false} LowestIdFirst(hits: seq<Medico>, s: seq<Medico>, p: Medico -> bool)
    requires hits == Filter(s, p) && |hits| > 0
    requires IdsIncreasing(s)
    ensures forall m :: m in hits ==> hits[0].id <= m.id
  {
    if !p(s[0]) {
      TailIncreasing(s);
      LowestIdFirst(hits, s[1..], p);
    } else {
      assert hits[0] == s[0];
      forall m | m in hits ensures s[0].id <= m.id {
        var k :| 0 <= k < |s| && s[k] == m;
        assert k == 0 || s[0].id < s[k].id;
      }
    }
  }

  /** LIKE `%pattern%` with a case-sensitive collation: `pattern` occurs in `text`. */
  predicate Contains(text: string, pattern: string)
    decreases |text|
  {
    pattern <= text || (|text| > 0 && Contains(text[1..], pattern))
  }

  /**
   * `searchByNomeAndCognome`: the stored rows whose nome and cognome contain
   * the given texts, whatever their status, each once, in id order.
   */
  function SearchByNomeAndCognome(rows: map<nat, Medico>, nextId: nat, nome: string, cognome: string): (r: seq<Medico>)
    requires WellFormed(rows, nextId)
    ensures forall m :: m in r <==> (m.id in rows && rows[m.id] == m
                                    && Contains(m.nome, nome) && Contains(m.cognome, cognome))
    ensures IdsIncreasing(r)
  {
    Filter(RowsBelow(rows, nextId), (m: Medico) => Contains(m.nome, nome) && Contains(m.cognome, cognome))
  }

  /** Follows a foreign key of another table up to the medico row it names. */
  function MedicoOf(rows: map<nat, Medico>, fk: map<nat, nat>, key: nat): (r: Option<Medico>)
    ensures r.Some? <==> key in fk && fk[key] in rows
    ensures r.Some? ==> r.value == rows[fk[key]]
  {
    if key in fk && fk[key] in rows then Some(rows[fk[key]]) else None
  }

  /** `softDeleteById` / `restoreById`: set one row's status; no row under `id` means no change. */
  function SetStatus(rows: map<nat, Medico>, id: nat, s: RecordStatus): (r: map<nat, Medico>)
    ensures r.Keys == rows.Keys
    ensures id in rows ==> r[id] == rows[id].(recordStatus := s)
    ensures forall k :: k in rows && k != id ==> r[k] == rows[k]
  {
    if id in rows then rows[id := rows[id].(recordStatus := s)] else rows
  }

  /** `softDelete` / `restore`: set every row's status, whatever it was. */
  function SetAllStatus(rows: map<nat, Medico>, s: RecordStatus): (r: map<nat, Medico>)
    ensures r.Keys == rows.Keys
    ensures forall id :: id in r ==> r[id] == rows[id].(recordStatus := s)
  {
    map id | id in rows :: rows[id].(recordStatus := s)
  }

  /** Setting every status twice to the same value is the same as setting it once. */
  lemma SetAllStatusIdempotent(rows: map<nat, Medico>, s: RecordStatus)
    ensures SetAllStatus(SetAllStatus(rows, s), s) == SetAllStatus(rows, s)
  {
  }

  /**
   * `MedicoRepository`: the doctor table as the service sees it. `nextId`
   * stands for the database's identity sequence.
   */
  class MedicoRepository {

    var rows: map<nat, Medico>
    var nextId: nat
    var links: Links

    ghost predicate Valid()
      reads this
    {
      WellFormed(rows, nextId)
    }

    constructor (links: Links)
      ensures Valid()
      ensures rows == map[] && nextId == 1 && this.links == links
    {
      rows := map[];
      nextId := 1;
      this.links := links;
    }

    /** `saveAndFlush` of an entity whose id is null: the database assigns the next identity value. */
    method Insert(m: Medico) returns (saved: Medico)
      requires Valid()
      modifies this
      ensures Valid()
      ensures saved == m.(id := old(nextId))
      ensures old(nextId) !in old(rows)
      ensures rows == old(rows)[saved.id := saved]
      ensures nextId == old(nextId) + 1 && links == old(links)
    {
      saved := m.(id := nextId);
      rows := rows[nextId := saved];
      nextId := nextId + 1;
    }

    /** `saveAndFlush` of an entity whose id is stored: the row is overwritten. */
    method Merge(m: Medico)
      requires Valid() && m.id in rows
      modifies this
      ensures Valid()
      ensures rows == old(rows)[m.id := m]
      ensures nextId == old(nextId) && links == old(links)
    {
      rows := rows[m.id := m];
    }

    /** `softDeleteById`. */
    method SoftDeleteById(id: nat)
      requires Valid()
      modifies this
      ensures Valid()
      ensures rows == SetStatus(old(rows), id, DELETED)
      ensures nextId == old(nextId) && links == old(links)
    {
      rows := SetStatus(rows, id, DELETED);
    }

    /** `restoreById`. */
    method RestoreById(id: nat)
      requires Valid()
      modifies this
      ensures Valid()
      ensures rows == SetStatus(old(rows), id, ACTIVE)
      ensures nextId == old(nextId) && links == old(links)
    {
      rows := SetStatus(rows, id, ACTIVE);
    }

    /** `softDelete`: a single statement over the whole table. */
    method SoftDelete()
      requires Valid()
      modifies this
      ensures Valid()
      ensures rows == SetAllStatus(old(rows), DELETED)
      ensures nextId == old(nextId) && links == old(links)
    {
      rows := SetAllStatus(rows, DELETED);
    }

    /** `restore`: a single statement over the whole table. */
    method Restore()
      requires Valid()
      modifies this
      ensures Valid()
      ensures rows == SetAllStatus(old(rows), ACTIVE)
      ensures nextId == old(nextId) && links == old(links)
    {
      rows := SetAllStatus(rows, ACTIVE);
    }
  }
}
