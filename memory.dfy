/**
 * The reasoning bank: an ordered list of memory items that is written out in
 * full to a JSON store after every change, and read back when the bank is
 * opened (src/memory.py).
 */
module Memory {
  import opened Wrappers

  /** One reusable lesson extracted from one solved (or failed) problem. */
  datatype MemoryItem = MemoryItem(
    title: string,
    description: string,
    content: string,
    sourceProblemId: string,
    success: bool,
    createdAt: string,
    embedding: Option<seq<real>>)

  /** A JSON document as `json.load` returns it. */
  datatype Json =
    | JNull
    | JBool(b: bool)
    | JNumber(n: real)
    | JString(s: string)
    | JArray(items: seq<Json>)
    | JObject(fields: map<string, Json>)

  /** Why opening a bank failed. Absence of the store is not a failure. */
  datatype LoadError =
    | Unreadable          // the file exists but cannot be read or is not JSON
    | NotAList            // the document is not iterable, or yields an element that is not a record
    | UnexpectedField     // a record has a key that is not a MemoryItem field
    | MissingField        // a record lacks a field that has no default
    | IllTypedField       // a field holds a value of the wrong JSON type

  /** What the backing file holds. */
  datatype StoreFile = Missing | Corrupt | Stored(doc: Json)

  const RequiredFields: set<string> :=
    {"title", "description", "content", "source_problem_id", "success", "created_at"}
  const AllFields: set<string> := RequiredFields + {"embedding"}

  function EmbeddingToJson(e: Option<seq<real>>): Json
  {
    match e
    case None => JNull
    case Some(v) => JArray(seq(|v|, i requires 0 <= i < |v| => JNumber(v[i])))
  }

  predicate AllNumbers(items: seq<Json>)
  {
    forall i :: 0 <= i < |items| ==> items[i].JNumber?
  }

  function EmbeddingFromJson(j: Json): Result<Option<seq<real>>, LoadError>
  {
    match j
    case JNull => Ok(None)
    case JArray(items) =>
      if AllNumbers(items) then Ok(Some(seq(|items|, i requires 0 <= i < |items| => items[i].n)))
      else Err(IllTypedField)
    case _ => Err(IllTypedField)
  }

  /** `MemoryItem.to_dict` (`dataclasses.asdict`): one key per field, the embedding as a list or null. */
  function ToDict(m: MemoryItem): (d: map<string, Json>)
    ensures d.Keys == AllFields
  {
    map[
      "title" := JString(m.title),
      "description" := JString(m.description),
      "content" := JString(m.content),
      "source_problem_id" := JString(m.sourceProblemId),
      "success" := JBool(m.success),
      "created_at" := JString(m.createdAt),
      "embedding" := EmbeddingToJson(m.embedding)]
  }

  /**
   * `MemoryItem.from_dict` (`cls(**data)`): an unknown key or a missing
   * required key is a `TypeError`; `embedding` defaults to `None`.
   */
  function FromDict(d: map<string, Json>): (r: Result<MemoryItem, LoadError>)
    ensures r.Ok? ==> d.Keys <= AllFields && RequiredFields <= d.Keys
  {
    if !(d.Keys <= AllFields) then Err(UnexpectedField)
    else if !(RequiredFields <= d.Keys) then Err(MissingField)
    else if !(d["title"].JString? && d["description"].JString? && d["content"].JString?
              && d["source_problem_id"].JString? && d["success"].JBool? && d["created_at"].JString?)
    then Err(IllTypedField)
    else
      var embedding := if "embedding" in d then EmbeddingFromJson(d["embedding"]) else Ok(None);
      match embedding
      case Err(e) => Err(e)
      case Ok(v) =>
        Ok(MemoryItem(d["title"].s, d["description"].s, d["content"].s,
                      d["source_problem_id"].s, d["success"].b, d["created_at"].s, v))
  }

  /** `from_dict(to_dict(m)) == m`, field for field, with or without an embedding. */
  lemma FromToDict(m: MemoryItem)
    ensures FromDict(ToDict(m)) == Ok(m)
  {
    var d := ToDict(m);
    match m.embedding
    case None =>
    case Some(v) =>
      var items := d["embedding"].items;
      assert AllNumbers(items);
      assert seq(|items|, i requires 0 <= i < |items| => items[i].n) == v;
  }

  /**
   * Conversely, a record that loads is the dictionary of the item it loads
   * as, except that a record without `embedding` gains `"embedding": null`.
   */
  lemma ToFromDict(d: map<string, Json>, m: MemoryItem)
    requires FromDict(d) == Ok(m)
    ensures ToDict(m) == if "embedding" in d then d else d["embedding" := JNull]
  {
    var e := ToDict(m);
    if "embedding" in d {
      match d["embedding"]
      case JNull =>
      case JArray(items) =>
        assert EmbeddingToJson(m.embedding).items == items;
      case _ =>
    }
    assert e.Keys == (if "embedding" in d then d else d["embedding" := JNull]).Keys;
  }

  /** The list written by `save`. */
  function Encode(ms: seq<MemoryItem>): (doc: Json)
    ensures doc.JArray? && |doc.items| == |ms|
  {
    JArray(seq(|ms|, i requires 0 <= i < |ms| => JObject(ToDict(ms[i]))))
  }

  /** `[MemoryItem.from_dict(m) for m in data]`: the first bad record aborts the whole load. */
  function DecodeRecords(items: seq<Json>): (r: Result<seq<MemoryItem>, LoadError>)
    ensures r.Ok? ==> |r.value| == |items|
  {
    if |items| == 0 then Ok([])
    else if !items[0].JObject? then Err(NotAList)
    else match FromDict(items[0].fields)
      case Err(e) => Err(e)
      case Ok(m) =>
        match DecodeRecords(items[1..])
        case Err(e) => Err(e)
        case Ok(rest) => Ok([m] + rest)
  }

  /**
   * What `load` makes of the file: a missing file is an empty bank, anything
   * unreadable is an error. `load` iterates whatever document it reads: the
   * records of a list, the keys of an object, the characters of a string.
   * Keys and characters are strings, which `cls(**m)` refuses, so an object
   * or a string loads only when it is empty, and then as an empty bank; any
   * other document is not iterable.
   */
  function DecodeStore(file: StoreFile): (r: Result<seq<MemoryItem>, LoadError>)
    ensures file.Missing? ==> r == Ok([])
    ensures file.Corrupt? ==> r == Err(Unreadable)
    ensures file.Stored? && file.doc.JArray? ==> r == DecodeRecords(file.doc.items)
    ensures file.Stored? && !file.doc.JArray? ==>
      (r.Ok? <==> file.doc == JObject(map[]) || file.doc == JString(""))
    ensures r.Ok? && file.Stored? && !file.doc.JArray? ==> r.value == []
  {
    match file
    case Missing => Ok([])
    case Corrupt => Err(Unreadable)
    case Stored(doc) =>
      match doc
      case JArray(items) => DecodeRecords(items)
      case JObject(fields) => if |fields| == 0 then Ok([]) else Err(NotAList)
      case JString(text) => if text == "" then Ok([]) else Err(NotAList)
      case _ => Err(NotAList)
  }

  lemma {:induction false} DecodeEncodedRecords(ms: seq<MemoryItem>)
    ensures DecodeRecords(Encode(ms).items) == Ok(ms)
  {
    if |ms| > 0 {
      FromToDict(ms[0]);
      assert Encode(ms).items[1..] == Encode(ms[1..]).items;
      DecodeEncodedRecords(ms[1..]);
      assert Encode(ms).items[0] == JObject(ToDict(ms[0]));
      assert [ms[0]] + ms[1..] == ms;
    }
  }

  /** Saving and then loading reproduces the bank exactly, in order. */
  lemma SaveLoadRoundTrip(ms: seq<MemoryItem>)
    ensures DecodeStore(Stored(Encode(ms))) == Ok(ms)
  {
    DecodeEncodedRecords(ms);
  }

  /**
   * `ReasoningBank`: the in-memory list and, as a ghost, the file that backs
   * it. After every mutation the file holds the whole list.
   */
  class ReasoningBank {
    var memories: seq<MemoryItem>
    ghost var persisted: StoreFile

    /** The file holds exactly the current list. */
    ghost predicate Synced()
      reads this
    {
      persisted == Stored(Encode(memories))
    }

    /** `__init__` before `load`: an empty list over the given file. */
    constructor (file: StoreFile)
      ensures memories == [] && persisted == file
    {
      memories := [];
      persisted := file;
    }

    /** `ReasoningBank(storage_path)`: construct, then `load`; a load error propagates out of the constructor. */
    static method Open(file: StoreFile) returns (r: Result<ReasoningBank, LoadError>)
      ensures r.Ok? <==> DecodeStore(file).Ok?
      ensures r.Ok? ==> fresh(r.value) && r.value.memories == DecodeStore(file).value && r.value.persisted == file
      ensures r.Err? ==> r.error == DecodeStore(file).error
    {
      var bank := new ReasoningBank(file);
      var outcome := bank.Load(file);
      if outcome.Ok? {
        r := Ok(bank);
      } else {
        r := Err(outcome.error);
      }
    }

    /**
     * `load`: reads the backing file. A missing file gives an empty bank; any
     * other failure leaves the list as it was and is reported.
     */
    method Load(file: StoreFile) returns (outcome: Result<(), LoadError>)
      requires file == persisted
      modifies this
      ensures persisted == old(persisted)
      ensures outcome.Ok? <==> DecodeStore(file).Ok?
      ensures outcome.Ok? ==> memories == DecodeStore(file).value
      ensures outcome.Err? ==> outcome.error == DecodeStore(file).error && memories == old(memories)
    {
      match DecodeStore(file)
      case Ok(ms) =>
        memories := ms;
        outcome := Ok(());
      case Err(e) =>
        outcome := Err(e);
    }

    /** `save`: rewrites the whole file from the list. */
    method Save()
      modifies this
      ensures memories == old(memories)
      ensures Synced()
    {
      persisted := Stored(Encode(memories));
    }

    /** `add_memory`: append one item at the end, then save. */
    method AddMemory(m: MemoryItem)
      modifies this
      ensures memories == old(memories) + [m]
      ensures |memories| == |old(memories)| + 1 && memories[|memories| - 1] == m
      ensures forall i :: 0 <= i < |old(memories)| ==> memories[i] == old(memories)[i]
      ensures Synced()
    {
      memories := memories + [m];
      Save();
    }

    /** `add_memories`: append the items in their order, then save once. */
    method AddMemories(ms: seq<MemoryItem>)
      modifies this
      ensures memories == old(memories) + ms
      ensures |memories| == |old(memories)| + |ms|
      ensures Synced()
    {
      memories := memories + ms;
      Save();
    }

    /** `get_all_memories`: the stored list itself. */
    method GetAllMemories() returns (ms: seq<MemoryItem>)
      ensures ms == memories
    {
      ms := memories;
    }

    /** `clear`: drop everything, then save the empty list. */
    method Clear()
      modifies this
      ensures memories == []
      ensures persisted == Stored(JArray([]))
      ensures Synced()
    {
      memories := [];
      Save();
    }

    /** `__len__` */
    method Len() returns (n: nat)
      ensures n == |memories|
    {
      n := |memories|;
    }
  }
}
