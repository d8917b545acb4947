/** The JSON endpoints of the server (task/views.py) as operations on a store
    of task rows. Each request is answered from the requesting user, the
    HTTP verb, the task id from the URL, the parsed request body and the
    current time; the answer is the new store and the response sent back. */
module Views {
  import opened Wrappers
  import opened Model
  import opened Wire

  datatype Method = GET | POST | PUT | PATCH | DELETE | OtherMethod

  /** One key of a JSON request object: missing, `null`, or a string. */
  datatype Field<T> = Absent | Null | Present(value: T)

  /** A request body: not parseable as JSON, or an object with the two keys
      the endpoints read. */
  datatype RequestBody = Malformed | Fields(title: Field<string>, description: Field<string>)

  /** The task table, keyed by id, and the next id the table will assign. */
  datatype Store = Store(rows: map<int, Task>, nextId: int)

  datatype Reply = Reply(store: Store, response: Response)

  /** Ids are positive, below the next id to assign, and each row sits under
      its own id. */
  predicate Valid(st: Store) {
    && st.nextId >= 1
    && forall k :: k in st.rows ==> 1 <= k < st.nextId && st.rows[k].id == k
  }

  /** The ownership test every per-task endpoint applies: the row exists and
      belongs to the requester. */
  predicate Owns(st: Store, user: User, id: int) {
    id in st.rows && st.rows[id].owner.id == user.id
  }

  /** `data.get(key, default)` on a request object: the default when the key
      is missing, `None` for a JSON `null`, the string otherwise. */
  function Get(f: Field<string>, default: Option<string>): (r: Option<string>)
    ensures f.Absent? ==> r == default
    ensures f.Null? ==> r.None?
    ensures f.Present? ==> r == Some(f.value)
  {
    match f
    case Absent => default
    case Null => None
    case Present(v) => Some(v)
  }

  function Serialize(t: Task): (j: TaskJson)
    ensures j.id == t.id && j.title == t.title && j.description == t.description
    ensures j.createdAt == t.createdAt && j.status == t.status
  {
    TaskJson(t.id, t.title, t.description, t.createdAt, t.status)
  }

  const NotFoundResponse: Response := Response(404, NotFound)
  const InvalidMethodResponse: Response := Response(400, InvalidMethod)
  /** An unhandled exception in a view: the framework answers 500 with an
      HTML page. */
  const ServerErrorResponse: Response := Response(500, NotJson)

  // ---------------------------------------------------------------------
  // api_task_toggle
  // ---------------------------------------------------------------------

  /** PUT, PATCH or POST on an owned task flips its status and answers with
      the saved task; a missing or foreign task is 404, any other verb 400,
      and in both cases the store is untouched. */
  function ToggleTask(st: Store, user: User, verb: Method, id: int, now: int): (r: Reply)
    ensures !(verb in {PUT, PATCH, POST}) ==> r == Reply(st, InvalidMethodResponse)
    ensures verb in {PUT, PATCH, POST} && !Owns(st, user, id) ==> r == Reply(st, NotFoundResponse)
    ensures verb in {PUT, PATCH, POST} && Owns(st, user, id) ==>
      && r.store.nextId == st.nextId
      && r.store.rows.Keys == st.rows.Keys
      && (forall k :: k in st.rows && k != id ==> r.store.rows[k] == st.rows[k])
      && r.store.rows[id] == st.rows[id].(status := !st.rows[id].status, updatedAt := now)
      && r.response == Response(200, Toggled(Serialize(r.store.rows[id])))
  {
    if verb in {PUT, PATCH, POST} then
      if Owns(st, user, id) then
        var t := Touch(st.rows[id].(status := !st.rows[id].status), now);
        Reply(st.(rows := st.rows[id := t]), Response(200, Toggled(Serialize(t))))
      else Reply(st, NotFoundResponse)
    else Reply(st, InvalidMethodResponse)
  }

  // ---------------------------------------------------------------------
  // api_task_delete
  // ---------------------------------------------------------------------

  /** DELETE on an owned task removes exactly that row; a missing or foreign
      task is 404, any other verb 400, and then nothing changes. */
  function DeleteTask(st: Store, user: User, verb: Method, id: int): (r: Reply)
    ensures verb != DELETE ==> r == Reply(st, InvalidMethodResponse)
    ensures verb == DELETE && !Owns(st, user, id) ==> r == Reply(st, NotFoundResponse)
    ensures verb == DELETE && Owns(st, user, id) ==>
      && r.store.nextId == st.nextId
      && r.store.rows.Keys == st.rows.Keys - {id}
      && (forall k :: k in r.store.rows ==> r.store.rows[k] == st.rows[k])
      && r.response == Response(200, Deleted)
  {
    if verb == DELETE then
      if Owns(st, user, id) then
        Reply(st.(rows := st.rows - {id}), Response(200, Deleted))
      else Reply(st, NotFoundResponse)
    else Reply(st, InvalidMethodResponse)
  }

  // ---------------------------------------------------------------------
  // api_task_update
  // ---------------------------------------------------------------------

  /** PUT or PATCH on an owned task replaces the title and the description
      with the body's values for the keys present in it, and nothing else but
      the save time. The row is looked up before the body is parsed, so a
      missing or foreign task is 404 whatever the body; an unparseable body,
      or a `null` title (which the non-nullable column refuses), is a server
      error that leaves the store as it was. */
  function UpdateTask(st: Store, user: User, verb: Method, id: int, body: RequestBody, now: int): (r: Reply)
    ensures !(verb in {PUT, PATCH}) ==> r == Reply(st, InvalidMethodResponse)
    ensures verb in {PUT, PATCH} && !Owns(st, user, id) ==> r == Reply(st, NotFoundResponse)
    ensures verb in {PUT, PATCH} && Owns(st, user, id) && (body.Malformed? || body.title.Null?) ==>
      r == Reply(st, ServerErrorResponse)
    ensures verb in {PUT, PATCH} && Owns(st, user, id) && body.Fields? && !body.title.Null? ==>
      r.store.rows.Keys == st.rows.Keys
    ensures verb in {PUT, PATCH} && Owns(st, user, id) && body.Fields? && !body.title.Null? ==>
      var prev := st.rows[id];
      var t := r.store.rows[id];
      && r.store.nextId == st.nextId
      && (forall k :: k in st.rows && k != id ==> r.store.rows[k] == st.rows[k])
      && t.title == (if body.title.Present? then body.title.value else prev.title)
      && t.description == (match body.description
                           case Absent => prev.description
                           case Null => None
                           case Present(d) => Some(d))
      && t.id == prev.id && t.owner == prev.owner && t.status == prev.status
      && t.taskTime == prev.taskTime && t.createdAt == prev.createdAt && t.updatedAt == now
      && r.response == Response(200, Updated(t.id, t.title, t.description, t.createdAt))
  {
    if verb in {PUT, PATCH} then
      if Owns(st, user, id) then
        match body
        case Malformed => Reply(st, ServerErrorResponse)
        case Fields(title, description) =>
          var prev := st.rows[id];
          match Get(title, Some(prev.title))
          case None => Reply(st, ServerErrorResponse)
          case Some(newTitle) =>
            var t := Touch(prev.(title := newTitle, description := Get(description, prev.description)), now);
            Reply(st.(rows := st.rows[id := t]),
                  Response(200, Updated(t.id, t.title, t.description, t.createdAt)))
      else Reply(st, NotFoundResponse)
    else Reply(st, InvalidMethodResponse)
  }

  // ---------------------------------------------------------------------
  // api_tasks (the second definition, which is the one bound to the name)
  // ---------------------------------------------------------------------

  /** The requester's rows with ids from `from` up to the next id, in id
      order. */
  function OwnedRows(st: Store, user: User, from: int): (r: seq<Task>)
    requires Valid(st)
    ensures forall i :: 0 <= i < |r| ==> from <= r[i].id && Owns(st, user, r[i].id) && st.rows[r[i].id] == r[i]
    ensures forall i, j :: 0 <= i < j < |r| ==> r[i].id < r[j].id
    ensures forall k :: from <= k && Owns(st, user, k) ==> st.rows[k] in r
    decreases st.nextId - from
  {
    if from >= st.nextId then []
    else
      var rest := OwnedRows(st, user, from + 1);
      if Owns(st, user, from) then [st.rows[from]] + rest else rest
  }

  /** Inserts `t` into a newest-first sequence, before every row that is not
      newer than it. */
  function InsertNewest(t: Task, s: seq<Task>): (r: seq<Task>)
    requires NewestFirst(s)
    ensures NewestFirst(r)
    ensures multiset(r) == multiset(s) + multiset{t}
    ensures |r| == |s| + 1 && (r[0] == t || (|s| > 0 && r[0] == s[0]))
  {
    if |s| == 0 || t.createdAt >= s[0].createdAt then [t] + s
    else
      var rest := InsertNewest(t, s[1..]);
      assert s == [s[0]] + s[1..];
      assert rest[0].createdAt <= s[0].createdAt;
      var r := [s[0]] + rest;
      assert forall j :: 1 <= j < |r| ==> r[j] == rest[j - 1];
      r
  }

  /** Orders rows newest first; rows created at the same instant keep their
      relative order. */
  function SortNewest(s: seq<Task>): (r: seq<Task>)
    ensures NewestFirst(r)
    ensures multiset(r) == multiset(s)
  {
    if |s| == 0 then []
    else
      assert s == [s[0]] + s[1..];
      InsertNewest(s[0], SortNewest(s[1..]))
  }

  /** The rows a listing returns: the requester's, newest first. */
  function OwnListing(st: Store, user: User): (r: seq<Task>)
    requires Valid(st)
    ensures NewestFirst(r)
    ensures multiset(r) == multiset(OwnedRows(st, user, 1))
  {
    SortNewest(OwnedRows(st, user, 1))
  }

  /** GET lists the requester's tasks, each with its status; POST inserts a
      new task owned by the requester, not completed, with a missing title or
      description read as the empty string. An unparseable body or a `null`
      title is a server error, and so is any other verb, for which the view
      returns no response at all. */
  function ApiTasks(st: Store, user: User, verb: Method, body: RequestBody, now: int): (r: Reply)
    requires Valid(st)
    ensures verb == GET ==>
      r == Reply(st, Response(200, Listing(SerializeAll(OwnListing(st, user)))))
    ensures verb == POST && (body.Malformed? || body.title.Null?) ==> r == Reply(st, ServerErrorResponse)
    ensures verb == POST && body.Fields? && !body.title.Null? ==>
      r.store.rows.Keys == st.rows.Keys + {st.nextId}
    ensures verb == POST && body.Fields? && !body.title.Null? ==>
      var id := st.nextId;
      var t := r.store.rows[id];
      && r.store.nextId == id + 1
      && (forall k :: k in st.rows ==> r.store.rows[k] == st.rows[k])
      && t.id == id && t.owner == user && !t.status && t.taskTime.None?
      && t.title == (if body.title.Present? then body.title.value else "")
      && t.description == (match body.description
                           case Absent => Some("")
                           case Null => None
                           case Present(d) => Some(d))
      && t.createdAt == now && t.updatedAt == now
      && r.response == Response(200, Created(Serialize(t)))
    ensures !(verb in {GET, POST}) ==> r == Reply(st, ServerErrorResponse)
  {
    match verb
    case GET => Reply(st, Response(200, Listing(SerializeAll(OwnListing(st, user)))))
    case POST =>
      (match body
       case Malformed => Reply(st, ServerErrorResponse)
       case Fields(title, description) =>
         match Get(title, Some(""))
         case None => Reply(st, ServerErrorResponse)
         case Some(newTitle) =>
           var t := NewTask(st.nextId, user, newTitle, Get(description, Some("")), now);
           Reply(Store(st.rows[st.nextId := t], st.nextId + 1), Response(200, Created(Serialize(t))))
      )
    case _ => Reply(st, ServerErrorResponse)
  }

  function SerializeAll(ts: seq<Task>): (js: seq<TaskJson>)
    ensures |js| == |ts|
    ensures forall i :: 0 <= i < |ts| ==> js[i] == Serialize(ts[i])
  {
    seq(|ts|, i requires 0 <= i < |ts| => Serialize(ts[i]))
  }

  // ---------------------------------------------------------------------
  // Properties relating several requests
  // ---------------------------------------------------------------------

  /** No endpoint breaks the store's id discipline. */
  lemma EndpointsPreserveValid(st: Store, user: User, verb: Method, id: int, body: RequestBody, now: int)
    requires Valid(st)
    ensures Valid(ToggleTask(st, user, verb, id, now).store)
    ensures Valid(DeleteTask(st, user, verb, id).store)
    ensures Valid(UpdateTask(st, user, verb, id, body, now).store)
    ensures Valid(ApiTasks(st, user, verb, body, now).store)
  {
  }

  /** Toggling the same owned task twice gives back the store it started
      from, except for the row's save time. */
  lemma ToggleTwiceRestores(st: Store, user: User, v1: Method, v2: Method, id: int, t1: int, t2: int)
    requires v1 in {PUT, PATCH, POST} && v2 in {PUT, PATCH, POST}
    requires Owns(st, user, id)
    ensures var once := ToggleTask(st, user, v1, id, t1).store;
            var twice := ToggleTask(once, user, v2, id, t2).store;
            twice == st.(rows := st.rows[id := st.rows[id].(updatedAt := t2)])
  {
    var once := ToggleTask(st, user, v1, id, t1).store;
    var twice := ToggleTask(once, user, v2, id, t2).store;
    assert twice.rows == st.rows[id := st.rows[id].(updatedAt := t2)];
  }

  lemma {:induction false} AtMostOnceWhenIdsIncrease(s: seq<Task>, x: Task)
    requires forall i, j :: 0 <= i < j < |s| ==> s[i].id < s[j].id
    ensures multiset(s)[x] <= 1
  {
    if |s| > 0 {
      assert s == [s[0]] + s[1..];
      AtMostOnceWhenIdsIncrease(s[1..], x);
      if s[0] == x {
        assert x !in s[1..];
      }
    }
  }

  lemma TwiceCountsTwice(s: seq<Task>, i: int, j: int)
    requires 0 <= i < j < |s| && s[i] == s[j]
    ensures multiset(s)[s[i]] >= 2
  {
    assert s == s[..j] + s[j..];
    assert s[..j][i] == s[i];
    assert s[j..][0] == s[j];
  }

  lemma SameMultisetSameMembers(a: seq<Task>, b: seq<Task>)
    requires multiset(a) == multiset(b)
    ensures forall t :: t in a <==> t in b
  {
    forall t ensures t in a <==> t in b {
      assert t in a <==> t in multiset(a);
      assert t in b <==> t in multiset(b);
    }
  }

  lemma DistinctIdsCarryOver(l: seq<Task>, o: seq<Task>)
    requires multiset(l) == multiset(o)
    requires forall i, j :: 0 <= i < j < |o| ==> o[i].id < o[j].id
    requires forall i, j :: 0 <= i < j < |l| && l[i].id == l[j].id ==> l[i] == l[j]
    ensures forall i, j :: 0 <= i < j < |l| ==> l[i].id != l[j].id
  {
    forall i, j | 0 <= i < j < |l| ensures l[i].id != l[j].id {
      if l[i].id == l[j].id {
        TwiceCountsTwice(l, i, j);
        AtMostOnceWhenIdsIncrease(o, l[i]);
      }
    }
  }

  /** Creating a task and then listing: the listing gains exactly one entry,
      the new row, and keeps every entry it had. */
  lemma CreateThenList(st: Store, user: User, body: RequestBody, now: int)
    requires Valid(st) && body.Fields? && !body.title.Null?
    ensures var after := ApiTasks(st, user, POST, body, now).store;
      && Valid(after)
      && st.nextId in after.rows
      && multiset(OwnListing(after, user)) == multiset(OwnListing(st, user)) + multiset{after.rows[st.nextId]}
  {
    var after := ApiTasks(st, user, POST, body, now).store;
    EndpointsPreserveValid(st, user, POST, 0, body, now);
    OwnedRowsAfterInsert(st, after, user, after.rows[st.nextId], 1);
  }

  /** The requester's rows after inserting `t` under the next id: those
      before, plus `t` once when its id is in range. */
  lemma {:induction false} OwnedRowsAfterInsert(st: Store, after: Store, user: User, t: Task, from: int)
    requires Valid(st) && Valid(after)
    requires after.nextId == st.nextId + 1 && after.rows == st.rows[st.nextId := t]
    requires t.owner.id == user.id
    ensures multiset(OwnedRows(after, user, from))
            == multiset(OwnedRows(st, user, from)) + (if from <= st.nextId then multiset{t} else multiset{})
    decreases after.nextId - from
  {
    if from < after.nextId {
      OwnedRowsAfterInsert(st, after, user, t, from + 1);
      if from == st.nextId {
        assert OwnedRows(st, user, from + 1) == [];
      } else {
        assert Owns(after, user, from) == Owns(st, user, from);
      }
    }
  }

  /** A listing holds exactly the requester's rows, each once, newest
      first. */
  lemma ListingIsOwnRowsNewestFirst(st: Store, user: User)
    requires Valid(st)
    ensures NewestFirst(OwnListing(st, user))
    ensures forall t :: t in OwnListing(st, user) <==> t.id in st.rows && Owns(st, user, t.id) && st.rows[t.id] == t
    ensures forall i, j :: 0 <= i < j < |OwnListing(st, user)| ==>
              OwnListing(st, user)[i].id != OwnListing(st, user)[j].id
  {
    var o := OwnedRows(st, user, 1);
    var l := OwnListing(st, user);
    SameMultisetSameMembers(l, o);
    forall t: Task | t.id in st.rows && Owns(st, user, t.id) && st.rows[t.id] == t ensures t in o {
      assert st.rows[t.id] in o;
    }
    forall i, j | 0 <= i < j < |l| && l[i].id == l[j].id ensures l[i] == l[j] {
      assert l[i] in o && l[j] in o;
    }
    DistinctIdsCarryOver(l, o);
  }
}
