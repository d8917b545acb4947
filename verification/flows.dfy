/** The three parts working together: a card's request is answered by the
    server's endpoint, the card reacts to that answer, and the list applies
    what the card reports. The list the browser then holds is the one the
    server would send for a fresh listing. */
module Flows {
  import opened Wrappers
  import opened Model
  import opened Wire
  import V = Views
  import C = TaskCard
  import L = TaskList

  // ---------------------------------------------------------------------
  // Row sequences under a change of rows
  // ---------------------------------------------------------------------

  /** Every row passed through `f`, in order. */
  function MapRows(s: seq<Task>, f: Task -> Task): (r: seq<Task>)
    ensures |r| == |s|
    ensures forall i :: 0 <= i < |s| ==> r[i] == f(s[i])
  {
    if |s| == 0 then [] else [f(s[0])] + MapRows(s[1..], f)
  }

  /** `f` leaves the creation time of every row alone, so it cannot change
      where a row sorts. */
  ghost predicate KeepsCreation(f: Task -> Task) {
    forall t :: f(t).createdAt == t.createdAt
  }

  lemma MapRowsCons(x: Task, s: seq<Task>, f: Task -> Task)
    ensures MapRows([x] + s, f) == [f(x)] + MapRows(s, f)
  {
    assert ([x] + s)[1..] == s;
  }

  lemma {:induction false} InsertCommutesWithMap(t: Task, s: seq<Task>, f: Task -> Task)
    requires NewestFirst(s) && KeepsCreation(f)
    ensures NewestFirst(MapRows(s, f))
    ensures V.InsertNewest(f(t), MapRows(s, f)) == MapRows(V.InsertNewest(t, s), f)
  {
    var ms := MapRows(s, f);
    if |s| == 0 || t.createdAt >= s[0].createdAt {
      MapRowsCons(t, s, f);
    } else {
      assert ms[1..] == MapRows(s[1..], f);
      InsertCommutesWithMap(t, s[1..], f);
      MapRowsCons(s[0], V.InsertNewest(t, s[1..]), f);
    }
  }

  /** Sorting newest first and then changing rows in place, keeping their
      creation times, gives the same sequence as changing them first. */
  lemma {:induction false} SortCommutesWithMap(s: seq<Task>, f: Task -> Task)
    requires KeepsCreation(f)
    ensures V.SortNewest(MapRows(s, f)) == MapRows(V.SortNewest(s), f)
  {
    if |s| > 0 {
      var ms := MapRows(s, f);
      assert ms[1..] == MapRows(s[1..], f);
      SortCommutesWithMap(s[1..], f);
      InsertCommutesWithMap(s[0], V.SortNewest(s[1..]), f);
    }
  }

  /** The rows without the one carrying `id`, in order. */
  function DropRow(s: seq<Task>, id: int): (r: seq<Task>)
    ensures forall x :: x in r <==> x in s && x.id != id
    ensures NewestFirst(s) ==> NewestFirst(r)
  {
    if |s| == 0 then []
    else
      var rest := DropRow(s[1..], id);
      assert forall x :: x in s <==> x == s[0] || x in s[1..];
      if s[0].id == id then rest else [s[0]] + rest
  }

  lemma {:induction false} InsertCommutesWithDrop(t: Task, s: seq<Task>, id: int)
    requires NewestFirst(s)
    ensures t.id != id ==> DropRow(V.InsertNewest(t, s), id) == V.InsertNewest(t, DropRow(s, id))
    ensures t.id == id ==> DropRow(V.InsertNewest(t, s), id) == DropRow(s, id)
  {
    var ins := V.InsertNewest(t, s);
    if |s| == 0 || t.createdAt >= s[0].createdAt {
      assert ins[0] == t && ins[1..] == s;
      var d := DropRow(s, id);
      if |d| > 0 {
        assert d[0] in s;
      }
    } else {
      assert ins[0] == s[0] && ins[1..] == V.InsertNewest(t, s[1..]);
      InsertCommutesWithDrop(t, s[1..], id);
      assert DropRow(s, id) == (if s[0].id == id then [] else [s[0]]) + DropRow(s[1..], id);
    }
  }

  /** Sorting newest first and then dropping a row gives the same sequence
      as dropping it first. */
  lemma {:induction false} SortCommutesWithDrop(s: seq<Task>, id: int)
    ensures V.SortNewest(DropRow(s, id)) == DropRow(V.SortNewest(s), id)
  {
    if |s| > 0 {
      SortCommutesWithDrop(s[1..], id);
      InsertCommutesWithDrop(s[0], V.SortNewest(s[1..]), id);
      assert DropRow(s, id) == (if s[0].id == id then [] else [s[0]]) + DropRow(s[1..], id);
      var d := DropRow(s, id);
      if s[0].id != id {
        assert d[0] == s[0] && d[1..] == DropRow(s[1..], id);
      }
    }
  }

  /** Serialising and then removing the task from the browser's list agrees
      with removing the row and then serialising. */
  lemma {:induction false} SerializeDrop(s: seq<Task>, id: int)
    ensures V.SerializeAll(DropRow(s, id)) == L.RemoveTask(V.SerializeAll(s), id)
  {
    if |s| > 0 {
      var js := V.SerializeAll(s);
      var d := DropRow(s, id);
      var rest := DropRow(s[1..], id);
      assert js == [js[0]] + V.SerializeAll(s[1..]);
      assert L.RemoveTask(js, id)
          == (if js[0].id != id then [js[0]] else []) + L.RemoveTask(V.SerializeAll(s[1..]), id);
      SerializeDrop(s[1..], id);
      if s[0].id != id {
        assert d == [s[0]] + rest;
        SerializeCons(s[0], rest);
      }
    }
  }

  lemma SerializeCons(x: Task, s: seq<Task>)
    ensures V.SerializeAll([x] + s) == [V.Serialize(x)] + V.SerializeAll(s)
  {
  }

  // ---------------------------------------------------------------------
  // The requester's rows in a changed store
  // ---------------------------------------------------------------------

  /** When a second store owns the same ids for the requester and each of
      its rows is `f` of the first store's, the requester's rows are `f` of
      the first store's rows. */
  lemma {:induction false} OwnedRowsMapped(st: V.Store, st2: V.Store, user: User, f: Task -> Task, from: int)
    requires V.Valid(st) && V.Valid(st2) && st2.nextId == st.nextId
    requires forall k :: V.Owns(st2, user, k) <==> V.Owns(st, user, k)
    requires forall k :: V.Owns(st, user, k) ==> k in st2.rows && st2.rows[k] == f(st.rows[k])
    ensures V.OwnedRows(st2, user, from) == MapRows(V.OwnedRows(st, user, from), f)
    decreases st.nextId - from
  {
    if from < st.nextId {
      OwnedRowsMapped(st, st2, user, f, from + 1);
      if V.Owns(st, user, from) {
        MapRowsCons(st.rows[from], V.OwnedRows(st, user, from + 1), f);
      }
    }
  }

  /** When a second store owns the requester's ids except `id`, with the same
      rows, the requester's rows are the first store's without `id`. */
  lemma {:induction false} OwnedRowsDropped(st: V.Store, st2: V.Store, user: User, id: int, from: int)
    requires V.Valid(st) && V.Valid(st2) && st2.nextId == st.nextId
    requires forall k :: V.Owns(st2, user, k) <==> V.Owns(st, user, k) && k != id
    requires forall k :: V.Owns(st2, user, k) ==> k in st.rows && st2.rows[k] == st.rows[k]
    ensures V.OwnedRows(st2, user, from) == DropRow(V.OwnedRows(st, user, from), id)
    decreases st.nextId - from
  {
    if from < st.nextId {
      OwnedRowsDropped(st, st2, user, id, from + 1);
      var rest := V.OwnedRows(st, user, from + 1);
      if V.Owns(st, user, from) {
        assert ([st.rows[from]] + rest)[1..] == rest;
      }
    }
  }

  /** The row change a toggle makes: a row with `id` takes the given status
      and save time; every other row is left alone. */
  function Retoggle(id: int, status: bool, now: int): (f: Task -> Task)
    ensures KeepsCreation(f)
  {
    (t: Task) => if t.id == id then t.(status := status, updatedAt := now) else t
  }

  // ---------------------------------------------------------------------
  // End to end
  // ---------------------------------------------------------------------

  /** The listing the server would send the requester now. */
  function ServerList(st: V.Store, user: User): (js: seq<TaskJson>)
    requires V.Valid(st)
    ensures V.ApiTasks(st, user, V.GET, V.Malformed, 0).response == Response(200, Listing(js))
  {
    V.SerializeAll(V.OwnListing(st, user))
  }

  /** Loading the list: the server's answer to GET becomes the list the
      browser holds, and the spinner goes. */
  lemma FetchLoadsServerList(st: V.Store, user: User, body: V.RequestBody, now: int, list: L.ListState)
    requires V.Valid(st)
    ensures var reply := V.ApiTasks(st, user, V.GET, body, now);
      var loaded := L.Apply(L.Apply(list, L.FetchStarted), L.FetchFinished(Responded(reply.response)));
      && reply.store == st
      && loaded.tasks == ServerList(st, user)
      && !loaded.isLoading && loaded.error.None?
  {
  }

  /** Clicking the checkbox of an owned task whose card is in step with the
      server, with a token: the server flips the row; the card shows the
      row's new status and reports it; the list, applying the report, holds
      exactly what the server would now list. */
  lemma ToggleKeepsListInSync(st: V.Store, user: User, id: int, now: int, token: C.Token, list: L.ListState)
    requires V.Valid(st) && V.Owns(st, user, id) && C.Present(token)
    requires list.tasks == ServerList(st, user)
    ensures var reply := V.ToggleTask(st, user, V.POST, id, now);
      var step := C.HandleToggle(C.InitialCard(V.Serialize(st.rows[id])), id, token, Responded(reply.response), true);
      && V.Valid(reply.store)
      && step.card.status == reply.store.rows[id].status
      && C.NotifyToggle(id, step.card.status) in step.effects
      && L.Apply(list, L.TaskToggled(id, step.card.status)).tasks == ServerList(reply.store, user)
  {
    var reply := V.ToggleTask(st, user, V.POST, id, now);
    V.EndpointsPreserveValid(st, user, V.POST, id, V.Malformed, now);
    ToggleConfirmed(st, user, id, now, token);
    ToggleSyncsRows(st, reply.store, user, id, !st.rows[id].status, now);
  }

  /** The toggle endpoint's answer for an owned task is one the card takes
      as confirmed, so the card shows and reports the flipped status. */
  lemma ToggleConfirmed(st: V.Store, user: User, id: int, now: int, token: C.Token)
    requires V.Owns(st, user, id) && C.Present(token)
    ensures var reply := V.ToggleTask(st, user, V.POST, id, now);
      var step := C.HandleToggle(C.InitialCard(V.Serialize(st.rows[id])), id, token, Responded(reply.response), true);
      && reply.store.rows[id].status == !st.rows[id].status
      && step.card.status == !st.rows[id].status
      && C.NotifyToggle(id, !st.rows[id].status) in step.effects
  {
    var reply := V.ToggleTask(st, user, V.POST, id, now);
    assert C.Confirmed(Responded(reply.response));
  }

  lemma ToggleSyncsRows(st: V.Store, st2: V.Store, user: User, id: int, newStatus: bool, now: int)
    requires V.Valid(st) && V.Valid(st2) && st2.nextId == st.nextId && V.Owns(st, user, id)
    requires st2.rows.Keys == st.rows.Keys
    requires forall k :: k in st.rows && k != id ==> st2.rows[k] == st.rows[k]
    requires st2.rows[id] == st.rows[id].(status := newStatus, updatedAt := now)
    ensures L.SetStatus(ServerList(st, user), id, newStatus) == ServerList(st2, user)
  {
    var f := Retoggle(id, newStatus, now);
    var rows := V.OwnedRows(st, user, 1);
    OwnedRowsMapped(st, st2, user, f, 1);
    SortCommutesWithMap(rows, f);
    SerializeRetoggle(V.SortNewest(rows), id, newStatus, now);
  }

  /** Serialising rows after the toggle's change is setting the status in
      their serialised form. */
  lemma SerializeRetoggle(s: seq<Task>, id: int, status: bool, now: int)
    ensures V.SerializeAll(MapRows(s, Retoggle(id, status, now))) == L.SetStatus(V.SerializeAll(s), id, status)
  {
  }

  /** Deleting an owned task with a token: the server removes the row; the
      card stays marked as removed and tells the list; the list, dropping
      the task, holds exactly what the server would now list. */
  lemma DeleteKeepsListInSync(st: V.Store, user: User, id: int, token: C.Token, list: L.ListState)
    requires V.Valid(st) && V.Owns(st, user, id) && C.Present(token)
    requires list.tasks == ServerList(st, user)
    ensures var reply := V.DeleteTask(st, user, V.DELETE, id);
      var step := C.HandleDelete(C.InitialCard(V.Serialize(st.rows[id])), id, token, Responded(reply.response), true);
      && V.Valid(reply.store)
      && id !in reply.store.rows
      && step.card.isDeleting
      && C.NotifyDelete(id) in step.effects
      && L.Apply(list, L.TaskDeleted(id)).tasks == ServerList(reply.store, user)
  {
    var reply := V.DeleteTask(st, user, V.DELETE, id);
    V.EndpointsPreserveValid(st, user, V.DELETE, id, V.Malformed, 0);
    DeleteSyncsRows(st, reply.store, user, id);
  }

  lemma DeleteSyncsRows(st: V.Store, st2: V.Store, user: User, id: int)
    requires V.Valid(st) && V.Valid(st2) && st2.nextId == st.nextId
    requires st2.rows.Keys == st.rows.Keys - {id}
    requires forall k :: k in st2.rows ==> st2.rows[k] == st.rows[k]
    ensures L.RemoveTask(ServerList(st, user), id) == ServerList(st2, user)
  {
    var rows := V.OwnedRows(st, user, 1);
    OwnedRowsDropped(st, st2, user, id, 1);
    SortCommutesWithDrop(rows, id);
    SerializeDrop(V.SortNewest(rows), id);
  }

  /** A card for a task the requester no longer owns (deleted elsewhere, or
      never theirs): the toggle endpoint answers 404 and changes nothing; the
      card keeps its status, shows the status-failure toast and tells the
      list nothing. */
  lemma MissingTaskToggle(st: V.Store, user: User, id: int, now: int, token: C.Token, c: C.CardState)
    requires !V.Owns(st, user, id) && C.Present(token) && !c.isToggling
    ensures var reply := V.ToggleTask(st, user, V.POST, id, now);
      var step := C.HandleToggle(c, id, token, Responded(reply.response), true);
      && reply.store == st
      && step.card.status == c.status
      && C.Toasts(step.effects) == [C.ShowToast(C.ToggleFailed, C.ErrorToast)]
      && (forall e :: e in step.effects ==> !e.NotifyToggle?)
  {
    var reply := V.ToggleTask(st, user, V.POST, id, now);
    var step := C.HandleToggle(c, id, token, Responded(reply.response), true);
    assert reply.response == Response(404, NotFound);
    var es := C.ToggleResult(id, !c.status, token, Responded(reply.response), true).1;
    assert es == [C.SendToggle(id), C.ShowToast(C.ToggleFailed, C.ErrorToast)];
    C.ToastIsLast(step.effects);
  }

  /** The same card's delete: the endpoint answers 404 and changes nothing;
      the card clears its removed mark, shows the status-failure toast and
      tells the list nothing. */
  lemma MissingTaskDelete(st: V.Store, user: User, id: int, token: C.Token, c: C.CardState)
    requires !V.Owns(st, user, id) && C.Present(token)
    ensures var reply := V.DeleteTask(st, user, V.DELETE, id);
      var step := C.HandleDelete(c, id, token, Responded(reply.response), true);
      && reply.store == st
      && !step.card.isDeleting
      && C.Toasts(step.effects) == [C.ShowToast(C.DeleteFailedStatus, C.ErrorToast)]
      && C.NotifyDelete(id) !in step.effects
  {
  }
}
