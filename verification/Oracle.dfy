/** Conversion of a trace to oracleGeneral records (traceConv.cpp): a backward pass that writes the
    records in reverse, then a second pass that turns the file round. Files are sequences. */
module Oracle {
  import opened NextUse

  datatype Record = Record(clockTime: nat, objId: ObjId, size: nat)
  datatype OracleRecord = OracleRecord(clockTime: nat, objId: ObjId, size: nat, nextAccess: int)

  const INT64_MAX := 0x7FFF_FFFF_FFFF_FFFF

  function Ids(tr: seq<Record>): (ids: seq<ObjId>)
    ensures |ids| == |tr|
    ensures forall i | 0 <= i < |tr| :: ids[i] == tr[i].objId
  {
    seq(|tr|, i requires 0 <= i < |tr| => tr[i].objId)
  }

  /** The 1-based position of the next request for the object requested at `i`, or -1. */
  function NextAccess(ids: seq<ObjId>, i: nat): int
    requires i < |ids|
  {
    var n := Next(ids, i + 1, ids[i]);
    if n < |ids| then n + 1 else -1
  }

  /** The size of the first request for `x`. */
  function FirstSize(tr: seq<Record>, x: ObjId): nat
  {
    if tr == [] then 0
    else if tr[0].objId == x then tr[0].size
    else FirstSize(tr[1..], x)
  }

  /** The next access as the backward pass sees it: counted from the end of the trace. */
  function FromEnd(ids: seq<ObjId>, i: nat): int
    requires i < |ids|
  {
    var n := Next(ids, i + 1, ids[i]);
    if n < |ids| then |ids| - 1 - n else -1
  }

  /** `last` maps every object requested at or after `i` to where that happens, counted from the end. */
  ghost predicate LastAccess(ids: seq<ObjId>, i: nat, last: map<ObjId, int>)
    requires i <= |ids|
  {
    forall x ::
      && (x in last <==> Next(ids, i, x) < |ids|)
      && (x in last ==> last[x] == |ids| - 1 - Next(ids, i, x))
  }

  lemma LastAccessStep(ids: seq<ObjId>, i: nat, last: map<ObjId, int>)
    requires i < |ids| && LastAccess(ids, i + 1, last)
    ensures FromEnd(ids, i) == if ids[i] in last then last[ids[i]] else -1
    ensures LastAccess(ids, i, last[ids[i] := |ids| - 1 - i])
  {
  }

  lemma NoneSeen(ids: seq<ObjId>)
    ensures LastAccess(ids, |ids|, map[])
  {
  }

  lemma AllSeen(ids: seq<ObjId>, last: map<ObjId, int>)
    requires LastAccess(ids, 0, last)
    ensures |last| == |set x | x in ids|
  {
    forall x
      ensures x in last <==> x in ids
    {
      assert x in ids ==> Next(ids, 0, x) < |ids|;
    }
    assert last.Keys == set x | x in ids;
  }

  /** The `k`-th record the backward pass writes. */
  function Written(tr: seq<Record>, k: nat): OracleRecord
    requires k < |tr|
  {
    var i := |tr| - 1 - k;
    OracleRecord(tr[i].clockTime, tr[i].objId, tr[i].size, FromEnd(Ids(tr), i))
  }

  method BackwardPass(tr: seq<Record>) returns (temp: seq<OracleRecord>, nReq: nat, nObj: nat)
    requires 0 < |tr|
    ensures nReq == |temp| == |tr|
    ensures forall k | 0 <= k < |tr| :: temp[k] == Written(tr, k)
    ensures nObj == |set x | x in Ids(tr)|
  {
    hide LastAccess, FromEnd;
    var lastAccess: map<ObjId, int> := map[];
    NoneSeen(Ids(tr));
    temp, nReq, nObj := [], 0, 0;
    ghost var ids := Ids(tr);
    var i := |tr|;
    while i > 0
      invariant 0 <= i <= |tr| && nReq == |temp| == |tr| - i
      invariant forall k | 0 <= k < nReq :: temp[k] == Written(tr, k)
      invariant LastAccess(ids, i, lastAccess)
      invariant nObj == |lastAccess|
    {
      i := i - 1;
      var req := tr[i];
      var next := -1;
      if req.objId !in lastAccess {
        nObj := nObj + 1;
      } else {
        next := lastAccess[req.objId];
      }
      LastAccessStep(ids, i, lastAccess);
      lastAccess := lastAccess[req.objId := nReq];
      temp := temp + [OracleRecord(req.clockTime, req.objId, req.size, next)];
      nReq := nReq + 1;
    }
    AllSeen(ids, lastAccess);
  }

  /** `sizes` maps the objects of a prefix to the sizes they first had. */
  ghost predicate FirstSizes(tr: seq<Record>, n: nat, sizes: map<ObjId, nat>)
    requires n <= |tr|
  {
    forall x ::
      && (x in sizes <==> exists i | 0 <= i < n :: tr[i].objId == x)
      && (x in sizes ==> sizes[x] == FirstSize(tr, x))
  }

  lemma {:induction false} FirstSizeAt(tr: seq<Record>, n: nat)
    requires n < |tr|
    requires forall i | 0 <= i < n :: tr[i].objId != tr[n].objId
    ensures FirstSize(tr, tr[n].objId) == tr[n].size
  {
    if n > 0 {
      assert tr[0].objId != tr[n].objId;
      FirstSizeAt(tr[1..], n - 1);
    }
  }

  /** Record `i` with its object's next access and, on demand, its object's first size. */
  function Annotated(tr: seq<Record>, i: nat, removeSizeChange: bool): OracleRecord
    requires i < |tr|
  {
    OracleRecord(tr[i].clockTime, tr[i].objId,
                 if removeSizeChange then FirstSize(tr, tr[i].objId) else tr[i].size,
                 NextAccess(Ids(tr), i))
  }

  method ReverseFile(ghost tr: seq<Record>, temp: seq<OracleRecord>, nReq: nat, removeSizeChange: bool)
    returns (out: seq<OracleRecord>)
    requires |temp| == |tr| == nReq
    requires forall k | 0 <= k < |tr| :: temp[k] == Written(tr, k)
    ensures |out| == |tr|
    ensures forall i | 0 <= i < |tr| :: out[i] == Annotated(tr, i, removeSizeChange)
  {
    var lastSize: map<ObjId, nat> := map[];
    var pos := |temp|;
    out := [];
    while pos > 0
      invariant 0 <= pos <= |temp| && |out| == |tr| - pos
      invariant forall i | 0 <= i < |out| :: out[i] == Annotated(tr, i, removeSizeChange)
      invariant removeSizeChange ==> FirstSizes(tr, |out|, lastSize)
    {
      pos := pos - 1;
      var rec := temp[pos];
      ghost var i := |out|;
      assert pos == |tr| - 1 - i;
      assert rec.nextAccess == FromEnd(Ids(tr), i);
      if rec.nextAccess != -1 {
        rec := rec.(nextAccess := nReq - rec.nextAccess);
      }
      if removeSizeChange {
        if rec.objId in lastSize {
          rec := rec.(size := lastSize[rec.objId]);
        } else {
          FirstSizeAt(tr, i);
          lastSize := lastSize[rec.objId := rec.size];
        }
      }
      out := out + [rec];
    }
  }

  /** This is the first request for its object. */
  ghost predicate FirstFor(tr: seq<Record>, j: nat)
    requires j < |tr|
  {
    forall l | 0 <= l < j :: tr[l].objId != tr[j].objId
  }

  /** `next` is the 1-based position of the next request for the object of request `i`, or -1 for none. */
  ghost predicate NextRequest(tr: seq<Record>, i: nat, next: int)
    requires i < |tr|
  {
    if next == -1 then forall j | i < j < |tr| :: tr[j].objId != tr[i].objId
    else
      && i + 2 <= next <= |tr| && tr[next - 1].objId == tr[i].objId
      && forall j | i < j < next - 1 :: tr[j].objId != tr[i].objId
  }

  /** The record keeps time and id of request `i`, has its next request, and its size or that of the first request for
      its object. */
  ghost predicate Says(tr: seq<Record>, i: nat, removeSizeChange: bool, rec: OracleRecord)
    requires i < |tr|
  {
    && rec.clockTime == tr[i].clockTime && rec.objId == tr[i].objId && NextRequest(tr, i, rec.nextAccess)
    && (!removeSizeChange ==> rec.size == tr[i].size)
    && (removeSizeChange ==> forall j | 0 <= j <= i && tr[j].objId == tr[i].objId && FirstFor(tr, j) ::
                               rec.size == tr[j].size)
  }

  lemma AnnotatedSays(tr: seq<Record>, i: nat, removeSizeChange: bool)
    requires i < |tr|
    ensures Says(tr, i, removeSizeChange, Annotated(tr, i, removeSizeChange))
  {
    var n := Next(Ids(tr), i + 1, Ids(tr)[i]);
    assert forall j | i < j < n :: tr[j].objId == Ids(tr)[j];
    hide FirstSize;
    forall j | 0 <= j <= i && tr[j].objId == tr[i].objId && FirstFor(tr, j)
      ensures FirstSize(tr, tr[i].objId) == tr[j].size
    {
      FirstSizeAt(tr, j);
    }
  }

  /** Record `i` keeps its time and id and gets the 1-based position of its object's next request. */
  method Convert(tr: seq<Record>, removeSizeChange: bool) returns (out: seq<OracleRecord>)
    requires 0 < |tr|
    ensures |out| == |tr|
    ensures forall i | 0 <= i < |tr| :: out[i] == Annotated(tr, i, removeSizeChange)
    ensures forall i | 0 <= i < |tr| :: Says(tr, i, removeSizeChange, out[i])
  {
    var temp, nReq, nObj := BackwardPass(tr);
    out := ReverseFile(tr, temp, nReq, removeSizeChange);
    forall i | 0 <= i < |tr|
      ensures Says(tr, i, removeSizeChange, out[i])
    {
      AnnotatedSays(tr, i, removeSizeChange);
    }
  }
}
