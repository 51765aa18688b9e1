/** What each query of the backend answers, as functions of the tables: statuses,
    sizes, and the buffers of the caller before and after. */
module Answers {
  import opened Text
  import opened Paths
  import opened Tables
  import opened Enumeration
  import opened FileTimes

  /** What db_query_key_info found; an aggregate whose statement failed is None. */
  datatype Info = Info(subkeys: Option<(nat, nat)>, maxClassLen: Option<nat>,
                       values: Option<(nat, nat, nat)>, lastWrite: FileTime)

  /** Every value of the key fits buffers of these sizes. */
  ghost predicate Fit(t: Tables, id: int, nameRoom: nat, dataRoom: nat) {
    forall v :: v in ValuesOf(t, id) ==> |v.name| < nameRoom && v.size <= dataRoom
  }

  /** The buffer after a value's bytes were copied; a NULL blob copies nothing. */
  ghost function Filled(before: seq<Octet>, data: Option<Blob>): seq<Octet> {
    if data.None? || |data.value| > |before| then before else data.value + before[|data.value|..]
  }

  /** What db_enumerate_values answers for the row it fetched: the status, the name
      length, the kind and the data size. */
  ghost function ValueAnswer(fetched: (Status, Option<ValueRow>), nameLen: nat, hasData: bool, dataSize: Option<nat>):
    (Status, nat, Option<DWord>, Option<nat>)
  {
    match fetched.1
    case None => (fetched.0, nameLen, None, dataSize)
    case Some(v) =>
      var (status, nextLen, nextSize) := EnumSizes(v, nameLen, hasData, dataSize);
      (status, nextLen, if |v.name| < nameLen then Some(v.kind) else None, nextSize)
  }

  ghost function RowName(row: Option<ValueRow>): Option<CText> {
    if row.None? then None else Some(row.value.name)
  }

  ghost function SubkeyName(row: Option<KeyRow>): Option<CText> {
    if row.None? then None else Some(LastComponent(row.value.path))
  }

  /** A name buffer afterwards: a name is written as soon as it fits. */
  ghost function NameBuffer(before: seq<Octet>, name: Option<CText>, nameLen: nat): seq<Octet>
    requires nameLen <= |before|
  {
    if name.Some? && |name.value| < nameLen then Written(before, name.value) else before
  }

  /** A data buffer afterwards. */
  ghost function DataBuffer(before: seq<Octet>, row: Option<ValueRow>, copied: bool): seq<Octet> {
    if copied && row.Some? then Filled(before, row.value.data) else before
  }

  /** What db_enumerate_keys answers for the row it fetched: the status, the name
      length and the time. */
  ghost function SubkeyAnswer(fetched: (Status, Option<KeyRow>), nameLen: nat): (Status, nat, Option<FileTime>) {
    match fetched.1
    case None => (fetched.0, nameLen, None)
    case Some(row) => NamedAnswer(LastComponent(row.path), row.mtime, nameLen)
  }

  ghost function NamedAnswer(keyName: CText, mtime: int, nameLen: nat): (Status, nat, Option<FileTime>) {
    if |keyName| >= nameLen then (MoreData, |keyName| + 1, None) else (Success, |keyName|, Some(Convert(mtime)))
  }

  /** A class buffer afterwards: no row has a class, so it is emptied on success. */
  ghost function ClassBuffer(before: seq<Octet>, classLen: Option<DWord>, status: Status): seq<Octet> {
    if status == Success && classLen.Some? && classLen.value > 0 && before != [] then [0] + before[1..] else before
  }

  ghost function ClassLength(hasClass: bool, classLen: Option<DWord>, status: Status): Option<DWord> {
    if status == Success && hasClass && classLen.Some? then Some(0) else classLen
  }

  /** What db_query_value answers: the status, the kind and the size. */
  ghost function QueryAnswer(t: Tables, id: int, name: CText, select: Outcome, hasBuffer: bool, capacity: DWord):
    (Status, Option<DWord>, DWord)
  {
    var status := QueryValue(t, id, name, select, hasBuffer, capacity);
    if status == Success || status == MoreData then
      (status, Some(Lookup(t, id, name).value.kind), Lookup(t, id, name).value.size)
    else (status, None, capacity)
  }

  /** The bytes a query finds. */
  ghost function FoundData(t: Tables, id: int, name: CText): Option<Blob> {
    if Lookup(t, id, name).None? then None else Lookup(t, id, name).value.data
  }

  /** What db_query_key_info finds, all outputs asked for. No row has a class, so
      its MAX is NULL, read as 0. */
  ghost function InfoOf(t: Tables, id: int, subkeys: Outcome, classes: Outcome, values: Outcome): Info
    requires HasId(t, id)
  {
    var key := KeyById(t, id);
    Info(if subkeys.Ran? then Some((|SubkeysOf(t, key.path)|, MaxOf(SubkeyLengths(t, key.path)))) else None,
         if classes.Ran? then Some(0) else None,
         if values.Ran? then Some((|ValuesOf(t, id)|, MaxNameChars(t, id), MaxValueSize(t, id))) else None,
         Convert(key.mtime))
  }

  /** What db_query_key_info answers. */
  ghost function InfoAnswer(t: Tables, id: int, find: Outcome, subkeys: Outcome, classes: Outcome, values: Outcome):
    (Status, Option<Info>)
  {
    if find.NotPrepared? then (BadDb, None)
    else if find.StepFailed? || !HasId(t, id) then (InvalidHandle, None)
    else (Success, Some(InfoOf(t, id, subkeys, classes, values)))
  }

  /** With buffers large enough a call succeeds, or there is no such row. */
  lemma FittingAnswer(t: Tables, id: int, index: nat, nameRoom: nat, dataRoom: nat)
    requires SizedBlobs(t) && Fit(t, id, nameRoom, dataRoom)
    ensures var fetched := FetchRow(t, id, index, Ran);
            var answer := ValueAnswer(fetched, nameRoom, true, Some(dataRoom));
            && (fetched.1.None? <==> index >= |ValueListing(t, id)|)
            && (fetched.1.None? ==> answer.0 == NoMoreItems)
            && (fetched.1.Some? ==>
                  var v := ValueListing(t, id)[index];
                  && fetched.1.value == v && |v.name| < nameRoom && v.size <= dataRoom
                  && (v.data.Some? ==> |v.data.value| == v.size)
                  && answer == (Success, |v.name|, Some(v.kind), Some(v.size as nat)))
  {
    ListedValue(t, id, index);
  }
}
