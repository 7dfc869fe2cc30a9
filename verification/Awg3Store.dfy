// The AWG3 endpoint store: a list of records held in memory and mirrored to one file.
// A write that fails leaves the changed list in memory and the old list in the file.
module Awg3Store {
  import opened Common

  /** Endpoint JSON that is an object, or anything else, which the projection skips. */
  datatype Endpoint = Object(body: string) | Opaque(text: string)

  datatype Record = Record(id: string, tag: string, endpoint: Endpoint)

  // ---- The list as a value ----

  function IndexOf(recs: seq<Record>, id: string): (i: Option<nat>)
    ensures i.Some? ==> i.value < |recs| && recs[i.value].id == id
    ensures i.Some? ==> forall k :: 0 <= k < i.value ==> recs[k].id != id
    ensures i.None? ==> forall k :: 0 <= k < |recs| ==> recs[k].id != id
  {
    if recs == [] then None
    else if recs[0].id == id then Some(0)
    else
      match IndexOf(recs[1..], id)
      case Some(i) => Some(i + 1)
      case None => None
  }

  function LastIndexOf(recs: seq<Record>, id: string): (i: Option<nat>)
    ensures i.Some? ==> i.value < |recs| && recs[i.value].id == id
    ensures i.Some? ==> forall k :: i.value < k < |recs| ==> recs[k].id != id
    ensures i.None? ==> forall k :: 0 <= k < |recs| ==> recs[k].id != id
  {
    if recs == [] then None
    else if recs[|recs| - 1].id == id then Some(|recs| - 1)
    else LastIndexOf(recs[..|recs| - 1], id)
  }

  function Without(recs: seq<Record>, i: nat): seq<Record>
    requires i < |recs|
  {
    recs[..i] + recs[i + 1..]
  }

  function Retagged(recs: seq<Record>, i: nat, tag: string): seq<Record>
    requires i < |recs|
  {
    recs[i := recs[i].(tag := tag)]
  }

  ghost function Tags(recs: seq<Record>): set<string> {
    set r | r in recs :: r.tag
  }

  /** Some record other than the one with this id carries the tag. */
  predicate TakenByOther(recs: seq<Record>, id: string, tag: string) {
    exists k :: 0 <= k < |recs| && recs[k].id != id && recs[k].tag == tag
  }

  ghost predicate DistinctIds(recs: seq<Record>) {
    forall i, j :: 0 <= i < j < |recs| ==> recs[i].id != recs[j].id
  }

  ghost predicate DistinctTags(recs: seq<Record>) {
    forall i, j :: 0 <= i < j < |recs| ==> recs[i].tag != recs[j].tag
  }

  /** The list seen as a map from id to record; order is forgotten. */
  ghost function ById(recs: seq<Record>): map<string, Record>
    requires DistinctIds(recs)
  {
    map i | 0 <= i < |recs| :: recs[i].id := recs[i]
  }

  class Store {
    var records: seq<Record>
    var file: seq<Record>

    constructor (onDisk: seq<Record>)
      ensures records == file == onDisk
    {
      records, file := onDisk, onDisk;
    }

    method Save(writeOk: bool) returns (ok: bool)
      modifies this`file
      ensures ok == writeOk
      ensures file == if writeOk then records else old(file)
    {
      if writeOk {
        file := records;
      }
      ok := writeOk;
    }

    method Add(rec: Record, writeOk: bool) returns (ok: bool)
      modifies this
      ensures ok == writeOk
      ensures records == old(records) + [rec]
      ensures file == if writeOk then records else old(file)
    {
      records := records + [rec];
      ok := Save(writeOk);
    }

    method Delete(id: string, writeOk: bool) returns (ok: bool)
      modifies this
      ensures var i := IndexOf(old(records), id);
              if i.Some? then
                && ok == writeOk
                && records == Without(old(records), i.value)
                && file == (if writeOk then records else old(file))
              else
                !ok && records == old(records) && file == old(file)
    {
      for i := 0 to |records|
        invariant records == old(records) && file == old(file)
        invariant forall k :: 0 <= k < i ==> records[k].id != id
      {
        if records[i].id == id {
          records := records[..i] + records[i + 1..];
          ok := Save(writeOk);
          return;
        }
      }
      ok := false;
    }

    method Rename(id: string, newTag: string, writeOk: bool) returns (ok: bool)
      modifies this
      ensures var i := LastIndexOf(old(records), id);
              if i.Some? && !TakenByOther(old(records), id, newTag) then
                && ok == writeOk
                && records == Retagged(old(records), i.value, newTag)
                && file == (if writeOk then records else old(file))
              else
                !ok && records == old(records) && file == old(file)
    {
      var idx := -1;
      for i := 0 to |records|
        invariant records == old(records) && file == old(file)
        invariant -1 <= idx < i
        invariant idx == -1 ==> forall k :: 0 <= k < i ==> records[k].id != id
        invariant idx >= 0 ==> records[idx].id == id && forall k :: idx < k < i ==> records[k].id != id
        invariant forall k :: 0 <= k < i && records[k].id != id ==> records[k].tag != newTag
      {
        if records[i].id == id {
          idx := i;
        } else if records[i].tag == newTag {
          return false;
        }
      }
      if idx == -1 {
        return false;
      }
      records := records[idx := records[idx].(tag := newTag)];
      ok := Save(writeOk);
    }

    method Get(id: string) returns (rec: Option<Record>)
      ensures var i := IndexOf(records, id);
              rec == if i.Some? then Some(records[i.value]) else None
    {
      for i := 0 to |records|
        invariant forall k :: 0 <= k < i ==> records[k].id != id
      {
        if records[i].id == id {
          return Some(records[i]);
        }
      }
      rec := None;
    }

    method TagSet() returns (tags: set<string>)
      ensures tags == Tags(records)
    {
      tags := {};
      for i := 0 to |records|
        invariant tags == Tags(records[..i])
      {
        assert records[..i + 1] == records[..i] + [records[i]];
        tags := tags + {records[i].tag};
      }
      assert records[..|records|] == records;
    }
  }
}
