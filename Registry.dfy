/** The spools table: one row per physical spool, identified by an integer id
    that the database assigns and by a unique tag (main.py:97-104). */
module Registry {
  import opened Wrappers

  /** A row of the spools table. */
  datatype Spool = Spool(id: int, tag: string)

  function Ids(spools: seq<Spool>): set<int>
  {
    set s | s in spools :: s.id
  }

  function Tags(spools: seq<Spool>): set<string>
  {
    set s | s in spools :: s.tag
  }

  /** Ids are positive and strictly increase along the table, which is the
      order in which SQLite hands out rowids to rows that are never deleted. */
  predicate IdsIncreasing(spools: seq<Spool>)
  {
    && (forall i :: 0 <= i < |spools| ==> spools[i].id >= 1)
    && (forall i, j :: 0 <= i < j < |spools| ==> spools[i].id < spools[j].id)
  }

  /** The `unique=True` constraint on the tag column (main.py:101). */
  predicate TagsUnique(spools: seq<Spool>)
  {
    forall i, j :: 0 <= i < j < |spools| ==> spools[i].tag != spools[j].tag
  }

  predicate WellFormed(spools: seq<Spool>)
  {
    IdsIncreasing(spools) && TagsUnique(spools)
  }

  /** `db.query(Spool).get(spool_id)`: the row with that primary key, if any. */
  function FindById(spools: seq<Spool>, id: int): (r: Option<Spool>)
    ensures r.Some? <==> id in Ids(spools)
    ensures r.Some? ==> r.value in spools && r.value.id == id
  {
    if spools == [] then None
    else if spools[0].id == id then Some(spools[0])
    else
      assert spools == [spools[0]] + spools[1..];
      FindById(spools[1..], id)
  }

  /** `db.query(Spool).filter_by(tag=tag).first()`: the first row whose tag
      equals `tag` exactly. */
  function FindByTag(spools: seq<Spool>, tag: string): (r: Option<Spool>)
    ensures r.Some? <==> tag in Tags(spools)
    ensures r.Some? ==> r.value in spools && r.value.tag == tag
  {
    if spools == [] then None
    else if spools[0].tag == tag then Some(spools[0])
    else
      assert spools == [spools[0]] + spools[1..];
      FindByTag(spools[1..], tag)
  }

  /** The largest id in the table, 0 when it is empty. */
  function MaxId(spools: seq<Spool>): (m: int)
    ensures forall s :: s in spools ==> s.id <= m
    ensures spools != [] ==> m in Ids(spools)
    ensures spools == [] ==> m == 0
  {
    if spools == [] then 0
    else
      assert spools == [spools[0]] + spools[1..];
      var rest := MaxId(spools[1..]);
      if spools[1..] == [] || spools[0].id >= rest then spools[0].id else rest
  }

  /** The id SQLite gives the next inserted row: one more than the largest id
      in use, or 1 for an empty table. */
  function NextId(spools: seq<Spool>): (r: int)
    ensures forall s :: s in spools ==> s.id < r
  {
    MaxId(spools) + 1
  }

  /** The get-or-create step of the import (main.py:352-354): add a spool with
      this tag unless one already has it. */
  function AddIfAbsent(spools: seq<Spool>, tag: string): (r: seq<Spool>)
    ensures spools <= r
    ensures Tags(r) == Tags(spools) + {tag}
    ensures tag in Tags(spools) ==> r == spools
    ensures tag !in Tags(spools) ==> |r| == |spools| + 1 && r[|spools|].id !in Ids(spools)
  {
    if FindByTag(spools, tag).Some? then spools
    else spools + [Spool(NextId(spools), tag)]
  }

  /** get-or-create keeps both table invariants. */
  lemma AddIfAbsentWellFormed(spools: seq<Spool>, tag: string)
    requires WellFormed(spools)
    ensures WellFormed(AddIfAbsent(spools, tag))
  {
    var r := AddIfAbsent(spools, tag);
    if tag !in Tags(spools) {
      forall i | 0 <= i < |spools|
        ensures spools[i].id < r[|spools|].id && spools[i].tag != tag
      {
        assert spools[i] in spools;
      }
      if spools != [] {
        assert spools[0] in spools;
      }
    }
  }

  /** The number of rows whose tag is `tag`. */
  function CountTag(spools: seq<Spool>, tag: string): nat
  {
    if spools == [] then 0
    else (if spools[0].tag == tag then 1 else 0) + CountTag(spools[1..], tag)
  }

  /** Under the unique constraint, a tag that occurs occurs exactly once. */
  lemma {:induction false} CountTagUnique(spools: seq<Spool>, tag: string)
    requires TagsUnique(spools)
    ensures CountTag(spools, tag) == if tag in Tags(spools) then 1 else 0
  {
    if spools != [] {
      assert spools == [spools[0]] + spools[1..];
      assert TagsUnique(spools[1..]) by {
        forall i, j | 0 <= i < j < |spools[1..]|
          ensures spools[1..][i].tag != spools[1..][j].tag
        {
          assert spools[1..][i] == spools[i + 1] && spools[1..][j] == spools[j + 1];
        }
      }
      CountTagUnique(spools[1..], tag);
      if spools[0].tag == tag {
        forall s | s in spools[1..] ensures s.tag != tag {
          var k :| 0 <= k < |spools[1..]| && spools[1..][k] == s;
          assert s == spools[k + 1];
        }
        assert tag !in Tags(spools[1..]);
      }
    }
  }

  /** Calling get-or-create twice with one tag creates one spool: the second
      call changes nothing, and afterwards exactly one row has the tag, the one
      the first call left. */
  lemma GetOrCreateTwice(spools: seq<Spool>, tag: string)
    requires WellFormed(spools)
    ensures AddIfAbsent(AddIfAbsent(spools, tag), tag) == AddIfAbsent(spools, tag)
    ensures CountTag(AddIfAbsent(spools, tag), tag) == 1
    ensures FindByTag(AddIfAbsent(AddIfAbsent(spools, tag), tag), tag)
         == FindByTag(AddIfAbsent(spools, tag), tag)
  {
    AddIfAbsentWellFormed(spools, tag);
    CountTagUnique(AddIfAbsent(spools, tag), tag);
  }
}
