/** The upload-session store (src/services/api/uploadSessionService.js): the
    same list-backed get, create, update and delete as the file store, with
    no validation. Sessions are schemaless objects in JavaScript, so apart
    from its id a session is a map from field name to value. */
module SessionStore {
  import opened Common

  /** One session: its id and every other field by name. */
  datatype Session<V> = Session(id: int, fields: map<string, V>)

  datatype StoredSession<V> = StoredSession(store: seq<Session<V>>, session: Session<V>)

  /** The field the store stamps with the creation time. */
  const StartTimeField: string := "startTime"
  /** The field the store never takes from a caller. */
  const IdField: string := "Id"

  function Ids<V>(s: seq<Session<V>>): (ids: seq<int>)
    ensures |ids| == |s|
    ensures forall i :: 0 <= i < |s| ==> ids[i] == s[i].id
  {
    seq(|s|, i requires 0 <= i < |s| => s[i].id)
  }

  predicate HasId<V>(s: seq<Session<V>>, id: int) {
    id in Ids(s)
  }

  predicate Valid<V>(s: seq<Session<V>>) {
    Unique(Ids(s))
  }

  /** `getAll`: the sessions in insertion order. */
  function GetAll<V>(s: seq<Session<V>>): (r: seq<Session<V>>)
    ensures Ids(r) == Ids(s)
    ensures forall i :: 0 <= i < |s| ==> r[i] == s[i]
  {
    s
  }

  /** `getById`: the first session with `id`, or `NotFound`. */
  function GetById<V>(s: seq<Session<V>>, id: int): (r: Result<Session<V>>)
    ensures r.Ok? <==> HasId(s, id)
    ensures r.Err? ==> r.error == NotFound
    ensures r.Ok? ==> r.value in s && r.value.id == id
  {
    match FirstIndex(Ids(s), id)
    case None => Err(NotFound)
    case Some(i) => Ok(s[i])
  }

  /** `create`: `{ ...session, Id: max + 1, startTime: now }` appended. */
  function Create<V>(s: seq<Session<V>>, input: map<string, V>, now: V): (r: StoredSession<V>)
    ensures r.store == s + [r.session]
    ensures forall j :: 0 <= j < |s| ==> s[j].id < r.session.id
    ensures |s| == 0 ==> r.session.id == 1
    ensures |s| > 0 ==> HasId(s, r.session.id - 1)
    ensures IdField !in r.session.fields
    ensures StartTimeField in r.session.fields && r.session.fields[StartTimeField] == now
    ensures forall k :: k in input && k != IdField && k != StartTimeField ==>
              k in r.session.fields && r.session.fields[k] == input[k]
    ensures forall k :: k in r.session.fields ==> k == StartTimeField || k in input
  {
    var sess := Session(NextId(Ids(s)), (input - {IdField})[StartTimeField := now]);
    StoredSession(s + [sess], sess)
  }

  /** `create` keeps the session ids unique. */
  lemma CreateKeepsValid<V>(s: seq<Session<V>>, input: map<string, V>, now: V)
    requires Valid(s)
    ensures Valid(Create(s, input, now).store)
  {
    var r := Create(s, input, now);
    assert Ids(r.store) == Ids(s) + [r.session.id];
    AppendFreshUnique(Ids(s), r.session.id);
  }

  /** `getAll` after `create` lists the old sessions, then the new one. */
  lemma GetAllAfterCreate<V>(s: seq<Session<V>>, input: map<string, V>, now: V)
    ensures var c := Create(s, input, now);
            GetAll(c.store) == GetAll(s) + [c.session]
  {
  }

  /** `update`: merge the patch minus `Id` into the first session with `id`. */
  function Update<V>(s: seq<Session<V>>, id: int, patch: map<string, V>): (r: Result<StoredSession<V>>)
    ensures r.Ok? <==> HasId(s, id)
    ensures r.Err? ==> r.error == NotFound
    ensures r.Ok? ==> |r.value.store| == |s| && Ids(r.value.store) == Ids(s)
    ensures r.Ok? ==> r.value.session.id == id && GetById(r.value.store, id) == Ok(r.value.session)
    ensures r.Ok? ==> forall j :: 0 <= j < |s| && s[j].id != id ==> r.value.store[j] == s[j]
    ensures r.Ok? ==> var before := GetById(s, id).value.fields; var after := r.value.session.fields;
              && (forall k :: k in patch && k != IdField ==> k in after && after[k] == patch[k])
              && (forall k :: k in before && k !in patch ==> k in after && after[k] == before[k])
              && (forall k :: k in after ==> k in before || (k in patch && k != IdField))
  {
    match FirstIndex(Ids(s), id)
    case None => Err(NotFound)
    case Some(i) =>
      var sess := Session(id, s[i].fields + (patch - {IdField}));
      Ok(StoredSession(s[i := sess], sess))
  }

  /** `delete`: remove the first session with `id` and return it, or `NotFound`. */
  function Delete<V>(s: seq<Session<V>>, id: int): (r: Result<StoredSession<V>>)
    ensures r.Ok? <==> HasId(s, id)
    ensures r.Err? ==> r.error == NotFound
    ensures r.Ok? ==> r.value.session.id == id && |r.value.store| == |s| - 1
    ensures r.Ok? ==> exists i :: 0 <= i < |s| && s[i] == r.value.session
                                 && r.value.store == s[..i] + s[i + 1..]
  {
    match FirstIndex(Ids(s), id)
    case None => Err(NotFound)
    case Some(i) => Ok(StoredSession(s[..i] + s[i + 1..], s[i]))
  }

  /** In a valid store only one position holds a given id. */
  lemma OnlyAt<V>(s: seq<Session<V>>, i: nat)
    requires Valid(s) && i < |s|
    ensures forall j :: 0 <= j < |s| && j != i ==> s[j].id != s[i].id
  {
    forall j | 0 <= j < |s| && j != i
      ensures s[j].id != s[i].id
    {
      if j < i { assert Ids(s)[j] != Ids(s)[i]; } else { assert Ids(s)[i] != Ids(s)[j]; }
    }
  }

  /** Cutting one session out of the list cuts its id out of the ids. */
  lemma IdsCut<V>(s: seq<Session<V>>, i: nat)
    requires i < |s|
    ensures Ids(s[..i] + s[i + 1..]) == Ids(s)[..i] + Ids(s)[i + 1..]
  {
  }

  /** After cutting the only session with `id`, none is left. */
  lemma CutLeavesNoId<V>(s: seq<Session<V>>, i: nat)
    requires Valid(s) && i < |s|
    ensures !HasId(s[..i] + s[i + 1..], s[i].id)
  {
    var rest := s[..i] + s[i + 1..];
    OnlyAt(s, i);
    forall j | 0 <= j < |rest|
      ensures Ids(rest)[j] != s[i].id
    {
      assert rest[j] == s[if j < i then j else j + 1];
    }
  }

  /** In a valid store `delete` removes the one session with that id, keeps
      the rest in order, and leaves no session with that id behind. */
  lemma DeleteRemovesExactly<V>(s: seq<Session<V>>, id: int)
    requires Valid(s)
    requires HasId(s, id)
    ensures !HasId(Delete(s, id).value.store, id)
    ensures Valid(Delete(s, id).value.store)
    ensures forall x :: x in s && x.id != id ==> x in Delete(s, id).value.store
  {
    var i := FirstIndex(Ids(s), id).value;
    var rest := s[..i] + s[i + 1..];
    assert Delete(s, id).value.store == rest;
    IdsCut(s, i);
    UniqueCut(Ids(s), i);
    CutLeavesNoId(s, i);
    forall x | x in s && x.id != id
      ensures x in rest
    {
      CutKeeps(s, i, x);
    }
  }
}
