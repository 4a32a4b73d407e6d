/** The two-level table from field numbers to fields (golang/protobuf/proto/properties.go). */
module ProtoTags {
  import opened Options
  import opened ProtoSchema

  const FAST_LIMIT: int := 1024

  class TagMap {
    var fastTags: seq<int>
    var slowTags: map<int, int>

    constructor ()
      ensures Valid() && forall t :: Lookup(t) == None
    {
      fastTags, slowTags := [], map[];
    }

    static predicate Fast(t: int) {
      0 < t < FAST_LIMIT
    }

    ghost predicate Valid()
      reads this
    {
      |fastTags| <= FAST_LIMIT && forall t :: t in slowTags ==> !Fast(t) && slowTags[t] >= 0
    }

    /** What the table holds for a number, wherever it holds it. */
    function Lookup(t: int): Option<int>
      reads this
    {
      if Fast(t) then (if t < |fastTags| && fastTags[t] >= 0 then Some(fastTags[t]) else None)
      else if t in slowTags then Some(slowTags[t])
      else None
    }

    method Get(t: int) returns (fi: int, ok: bool)
      requires Valid()
      ensures if ok then Lookup(t) == Some(fi) else Lookup(t) == None
    {
      if t > 0 && t < FAST_LIMIT {
        if t >= |fastTags| { return 0, false; }
        fi := fastTags[t];
        return fi, fi >= 0;
      }
      if t in slowTags { return slowTags[t], true; }
      return 0, false;
    }

    /** Enters one number and leaves all others as they were. */
    method Put(t: int, fi: int)
      requires Valid() && fi >= 0
      modifies this
      ensures Valid() && forall u :: Lookup(u) == if u == t then Some(fi) else old(Lookup(u))
    {
      if t > 0 && t < FAST_LIMIT {
        while |fastTags| < t + 1
          invariant |fastTags| <= FAST_LIMIT && |old(fastTags)| <= |fastTags| && slowTags == old(slowTags)
          invariant forall u :: 0 <= u < |fastTags| ==>
                      fastTags[u] == if u < |old(fastTags)| then old(fastTags)[u] else -1
        {
          fastTags := fastTags + [-1];
        }
        fastTags := fastTags[t := fi];
        return;
      }
      slowTags := slowTags[t := fi];
    }
  }

  /** The table finds the fields of a message type by their numbers. */
  ghost predicate IsTable(d: MsgDesc, tags: TagMap)
    reads tags
  {
    && tags.Valid()
    && forall t: nat :: tags.Lookup(t) == match FieldIndex(d, t) case Some(i) => Some(i as int) case None => None
  }

  /** A table for every message type. */
  ghost predicate AreTables(S: Schema, tables: seq<TagMap>)
    reads tables
  {
    |tables| == |S| && forall ty :: 0 <= ty < |S| ==> IsTable(S[ty], tables[ty])
  }

  /** The table of a message type: every field that exists, by its number. */
  method DecoderTags(d: MsgDesc) returns (tags: TagMap)
    requires forall i, j :: 0 <= i < j < |d.fields| ==> d.fields[i].tag < d.fields[j].tag
    ensures fresh(tags) && tags.Valid()
    ensures IsTable(d, tags)
  {
    tags := new TagMap();
    var i := 0;
    while i < |d.fields|
      invariant i <= |d.fields| && fresh(tags) && tags.Valid()
      invariant forall t :: tags.Lookup(t).Some? ==>
                  var k := tags.Lookup(t).value; 0 <= k < i && d.fields[k].tag == t && d.fields[k].mode != Reserved
      invariant forall k :: 0 <= k < i && d.fields[k].mode != Reserved ==> tags.Lookup(d.fields[k].tag) == Some(k)
    {
      if d.fields[i].mode != Reserved {
        tags.Put(d.fields[i].tag, i);
      }
      i := i + 1;
    }
    forall t: nat ensures tags.Lookup(t) == match FieldIndex(d, t) case Some(i) => Some(i as int) case None => None {
      var r := FieldIndex(d, t);
      if r.Some? {
        assert d.fields[r.value].tag == t;
      }
    }
  }

  /** The tables of all types, as GetProperties keeps them. */
  method AllTags(S: Schema) returns (tables: seq<TagMap>)
    requires ValidSchema(S)
    ensures fresh(tables) && AreTables(S, tables)
  {
    tables := [];
    var ty := 0;
    while ty < |S|
      invariant ty == |tables| <= |S| && fresh(tables)
      invariant forall k :: 0 <= k < ty ==> IsTable(S[k], tables[k])
    {
      assert ValidType(S, S[ty]);
      var tags := DecoderTags(S[ty]);
      tables := tables + [tags];
      ty := ty + 1;
    }
  }
}
