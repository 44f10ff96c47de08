/**
 * The `StudentJDBCTemplate` collaborator, whose SQL is not part of this model,
 * as an in-memory store: rows keyed by id, the ids in the order the rows were
 * created, the next id to assign, whether the database is reachable, and the
 * log of every call made on it. Each call is logged first; when the store is
 * offline it then raises.
 */
module Store {
  import opened Wrappers
  import opened Bytes
  import opened Records
  import Images

  /** What a store call gives back: a value, or an exception. */
  datatype Reply<T> = Returned(value: T) | Raised

  class StudentJdbcTemplate {
    var records: map<int, Student>
    var ids: seq<int>
    var nextId: int
    var online: bool
    var log: seq<StoreCall>

    /**
     * Every row sits under its own id, `ids` lists exactly the stored ids,
     * and ids still to be assigned are fresh.
     */
    ghost predicate Valid()
      reads this
    {
      && (forall k :: k in records ==> records[k].id == k && k < nextId && k in ids)
      && (forall i :: 0 <= i < |ids| ==> ids[i] in records)
    }

    /** The stored rows in creation order. */
    function Rows(): (rows: seq<Student>)
      reads this
      requires Valid()
      ensures forall i :: 0 <= i < |rows| ==> rows[i].id in records && records[rows[i].id] == rows[i]
      ensures forall k :: k in records ==> records[k] in rows
      ensures records == map[] ==> rows == []
    {
      var rows := seq(|ids|, i requires 0 <= i < |ids| reads this requires Valid() => records[ids[i]]);
      forall i | 0 <= i < |rows| ensures rows[i].id in records && records[rows[i].id] == rows[i] {
        assert ids[i] in records && records[ids[i]].id == ids[i];
      }
      forall k | k in records ensures records[k] in rows {
        var i :| 0 <= i < |ids| && ids[i] == k;
        assert rows[i] == records[k];
      }
      assert |ids| > 0 ==> ids[0] in records;
      rows
    }

    constructor ()
      ensures Valid() && records == map[] && nextId == 1 && online && log == []
    {
      records, ids, nextId, online, log := map[], [], 1, true, [];
    }

    method SetOnline(up: bool)
      modifies this`online
      ensures online == up
    {
      online := up;
    }

    /** Inserts the student under a newly assigned id. */
    method Create(s: Student) returns (r: Reply<int>)
      requires Valid()
      modifies this`records, this`ids, this`nextId, this`log
      ensures Valid() && online == old(online) && log == old(log) + [CreateCall(s)]
      ensures r.Returned? <==> online
      ensures r.Returned? ==>
        r.value == old(nextId) && r.value !in old(records)
        && records == old(records)[r.value := s.(id := r.value)]
      ensures r.Raised? ==> records == old(records)
    {
      log := log + [CreateCall(s)];
      if !online {
        return Raised;
      }
      var id := nextId;
      records := records[id := s.(id := id)];
      ids := ids + [id];
      nextId := nextId + 1;
      r := Returned(id);
    }

    /** The row with this id; a missing row raises, as a single-row query does. */
    method GetById(id: int) returns (r: Reply<Student>)
      modifies this`log
      ensures log == old(log) + [GetByIdCall(id)]
      ensures r == if online && id in records then Returned(records[id]) else Raised
    {
      log := log + [GetByIdCall(id)];
      r := if online && id in records then Returned(records[id]) else Raised;
    }

    /** The first row, in creation order, with this name; none raises. */
    method GetByName(name: string) returns (r: Reply<Student>)
      requires Valid()
      modifies this`log
      ensures log == old(log) + [GetByNameCall(name)]
      ensures r.Returned? <==> online && exists k :: k in records && records[k].name == name
      ensures r.Returned? ==> r.value.id in records && records[r.value.id] == r.value && r.value.name == name
    {
      log := log + [GetByNameCall(name)];
      var found := FirstNamed(Rows(), name);
      r := if online && found.Some? then Returned(found.value) else Raised;
    }

    /** Overwrites name, age and email of an existing row; the stored image stays. */
    method Update(s: Student) returns (r: Reply<()>)
      requires Valid()
      modifies this`records, this`log
      ensures Valid() && log == old(log) + [UpdateCall(s)]
      ensures r.Returned? <==> online
      ensures records == if online && s.id in old(records)
        then old(records)[s.id := s.(image := old(records)[s.id].image)]
        else old(records)
    {
      log := log + [UpdateCall(s)];
      if !online {
        return Raised;
      }
      if s.id in records {
        records := records[s.id := s.(image := records[s.id].image)];
      }
      r := Returned(());
    }

    method Delete(id: int) returns (r: Reply<()>)
      requires Valid()
      modifies this`records, this`ids, this`log
      ensures Valid() && log == old(log) + [DeleteCall(id)]
      ensures r.Returned? <==> online
      ensures records == if online then old(records) - {id} else old(records)
    {
      log := log + [DeleteCall(id)];
      if !online {
        return Raised;
      }
      records := records - {id};
      ids := Without(ids, id);
      assert forall i :: 0 <= i < |ids| ==> ids[i] in ids;
      r := Returned(());
    }

    /**
     * The image of an existing row, delivered as a fresh `ImageImpl` whose
     * array holds the stored bytes, or `null` bytes when the row has none.
     */
    method GetImage(id: int) returns (r: Reply<Images.ImageImpl>)
      modifies this`log
      ensures log == old(log) + [GetImageCall(id)]
      ensures r.Returned? <==> online && id in records
      ensures r.Returned? ==> fresh(r.value) && r.value.id == id
      ensures r.Returned? ==> (r.value.imageBytes == null <==> records[id].image.None?)
      ensures r.Returned? && r.value.imageBytes != null ==>
        fresh(r.value.imageBytes) && r.value.imageBytes[..] == records[id].image.value
    {
      log := log + [GetImageCall(id)];
      if !online || id !in records {
        return Raised;
      }
      var image: Images.ImageImpl;
      match records[id].image {
        case None =>
          image := new Images.ImageImpl(id, null);
        case Some(bytes) =>
          var a := new byte[|bytes|](i requires 0 <= i < |bytes| => bytes[i]);
          image := new Images.ImageImpl(id, a);
      }
      r := Returned(image);
    }

    method SetImage(id: int, bytes: seq<byte>) returns (r: Reply<()>)
      requires Valid()
      modifies this`records, this`log
      ensures Valid() && log == old(log) + [SetImageCall(id, bytes)]
      ensures r.Returned? <==> online
      ensures records == if online && id in old(records)
        then old(records)[id := old(records)[id].(image := Some(bytes))]
        else old(records)
    {
      log := log + [SetImageCall(id, bytes)];
      if !online {
        return Raised;
      }
      if id in records {
        records := records[id := records[id].(image := Some(bytes))];
      }
      r := Returned(());
    }

    /** Every stored row, in creation order. */
    method GetAllRecords() returns (r: Reply<seq<Student>>)
      requires Valid()
      modifies this`log
      ensures log == old(log) + [GetAllRecordsCall]
      ensures r.Returned? <==> online
      ensures r == if online then Returned(Rows()) else Raised
    {
      log := log + [GetAllRecordsCall];
      r := if online then Returned(Rows()) else Raised;
    }

    /** Applies each element as an update of the row with its id; unknown ids change nothing. */
    method ExecuteBatchUpdate(students: seq<Student>) returns (r: Reply<()>)
      requires Valid()
      modifies this`records, this`log
      ensures Valid() && log == old(log) + [ExecuteBatchUpdateCall(students)]
      ensures r.Returned? <==> online
      ensures records == if online then Overwritten(old(records), students) else old(records)
    {
      log := log + [ExecuteBatchUpdateCall(students)];
      if !online {
        return Raised;
      }
      var i := 0;
      while i < |students|
        invariant 0 <= i <= |students| && Valid()
        invariant log == old(log) + [ExecuteBatchUpdateCall(students)] && online
        invariant records == Overwritten(old(records), students[..i])
      {
        var s := students[i];
        if s.id in records {
          records := records[s.id := s.(image := records[s.id].image)];
        }
        assert students[..i + 1] == students[..i] + [s];
        OverwrittenStep(old(records), students[..i], s);
        i := i + 1;
      }
      assert students[..i] == students;
      r := Returned(());
    }
  }

  /** The first student in `rows` with this name. */
  function FirstNamed(rows: seq<Student>, name: string): (r: Option<Student>)
    ensures r.Some? ==> r.value in rows && r.value.name == name
    ensures r.None? ==> forall s :: s in rows ==> s.name != name
  {
    if rows == [] then None
    else if rows[0].name == name then Some(rows[0])
    else FirstNamed(rows[1..], name)
  }

  /** `ids` without any occurrence of `id`. */
  function Without(ids: seq<int>, id: int): (r: seq<int>)
    ensures forall k :: k in r <==> k in ids && k != id
  {
    if ids == [] then []
    else if ids[0] == id then Without(ids[1..], id)
    else [ids[0]] + Without(ids[1..], id)
  }

  /** The rows after updating, one element after another, the rows with the elements' ids. */
  ghost function Overwritten(rows: map<int, Student>, updates: seq<Student>): map<int, Student>
    decreases |updates|
  {
    if updates == [] then rows
    else
      var last := updates[|updates| - 1];
      var before := Overwritten(rows, updates[..|updates| - 1]);
      if last.id in before then before[last.id := last.(image := before[last.id].image)] else before
  }

  lemma OverwrittenStep(rows: map<int, Student>, updates: seq<Student>, s: Student)
    ensures var before := Overwritten(rows, updates);
      Overwritten(rows, updates + [s])
        == if s.id in before then before[s.id := s.(image := before[s.id].image)] else before
  {
    assert (updates + [s])[..|updates|] == updates;
  }
}
