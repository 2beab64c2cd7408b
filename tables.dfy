/** The two SQLite tables and the SQL statements the handlers run on them.
    A table is a sequence of rows in insertion order; with AUTOINCREMENT ids
    that is also ascending id order. Every statement is a function from the
    old table to its result or to the new table. */
module Tables {
  import opened Wrappers

  /** A row of `users(id, email UNIQUE, password_hash)`. */
  datatype User = User(id: int, email: string, passwordHash: string)

  /** A row of `todos(id, user_id, title, done)`; `created_at` is not modelled. */
  datatype Todo = Todo(id: int, userId: int, title: string, done: int)

  // ---- table invariants ----

  ghost predicate UserIdsAscending(users: seq<User>)
  {
    forall i, j :: 0 <= i < j < |users| ==> users[i].id < users[j].id
  }

  /** The UNIQUE constraint on `users.email`. */
  ghost predicate UniqueEmails(users: seq<User>)
  {
    forall i, j :: 0 <= i < j < |users| ==> users[i].email != users[j].email
  }

  /** `last` is the table's AUTOINCREMENT counter: the largest id ever issued. */
  ghost predicate UsersValid(users: seq<User>, last: nat)
  {
    UserIdsAscending(users) && UniqueEmails(users) &&
    forall u :: u in users ==> 1 <= u.id <= last
  }

  ghost predicate Ascending(todos: seq<Todo>)
  {
    forall i, j :: 0 <= i < j < |todos| ==> todos[i].id < todos[j].id
  }

  ghost predicate Descending(todos: seq<Todo>)
  {
    forall i, j :: 0 <= i < j < |todos| ==> todos[i].id > todos[j].id
  }

  ghost predicate TodosValid(todos: seq<Todo>, last: nat)
  {
    Ascending(todos) &&
    forall t :: t in todos ==> 1 <= t.id <= last && (t.done == 0 || t.done == 1)
  }

  /** The FOREIGN KEY `todos.user_id REFERENCES users(id)`: every row's owner
      is a stored user. */
  ghost predicate OwnersExist(users: seq<User>, todos: seq<Todo>)
  {
    forall t :: t in todos ==> HasUser(users, t.userId)
  }

  /** Per-user isolation: every user other than `uid` owns the same rows, in
      the same order, before and after. */
  ghost predicate OthersUnchanged(before: seq<Todo>, after: seq<Todo>, uid: int)
  {
    forall v :: v != uid ==> Owned(after, v) == Owned(before, v)
  }

  // ---- statements ----

  /** `SELECT * FROM users WHERE email=?` with `.get()`: the first match. */
  function FindUser(users: seq<User>, email: string): (r: Option<User>)
    ensures r.Some? ==> r.value in users && r.value.email == email
    ensures r.None? <==> forall u :: u in users ==> u.email != email
  {
    if users == [] then None
    else if users[0].email == email then Some(users[0])
    else FindUser(users[1..], email)
  }

  /** The foreign-key check SQLite makes before inserting a todo: some user
      has that id. */
  function HasUser(users: seq<User>, id: int): (r: bool)
    ensures r <==> exists u :: u in users && u.id == id
  {
    if users == [] then false
    else users[0].id == id || HasUser(users[1..], id)
  }

  /** `SELECT * FROM todos WHERE user_id=?` in table order. */
  function Owned(todos: seq<Todo>, uid: int): (r: seq<Todo>)
    ensures forall t :: t in r <==> t in todos && t.userId == uid
  {
    if todos == [] then []
    else (if todos[0].userId == uid then [todos[0]] else []) + Owned(todos[1..], uid)
  }

  /** `SELECT * FROM todos WHERE id=?` with `.get()`. */
  function FindById(todos: seq<Todo>, id: int): (r: Option<Todo>)
    ensures r.Some? ==> r.value in todos && r.value.id == id
    ensures r.None? <==> forall t :: t in todos ==> t.id != id
  {
    if todos == [] then None
    else if todos[0].id == id then Some(todos[0])
    else FindById(todos[1..], id)
  }

  /** `SELECT * FROM todos WHERE id=? AND user_id=?` with `.get()`. */
  function FindOwned(todos: seq<Todo>, id: int, uid: int): (r: Option<Todo>)
    ensures r.Some? ==> r.value in todos && r.value.id == id && r.value.userId == uid
    ensures r.None? <==> forall t :: t in todos ==> !(t.id == id && t.userId == uid)
  {
    if todos == [] then None
    else if todos[0].id == id && todos[0].userId == uid then Some(todos[0])
    else FindOwned(todos[1..], id, uid)
  }

  /** `DELETE FROM todos WHERE id=? AND user_id=?`. */
  function DeleteOwned(todos: seq<Todo>, id: int, uid: int): (r: seq<Todo>)
    ensures forall t :: t in r <==> t in todos && !(t.id == id && t.userId == uid)
  {
    if todos == [] then []
    else (if todos[0].id == id && todos[0].userId == uid then [] else [todos[0]])
         + DeleteOwned(todos[1..], id, uid)
  }

  /** `UPDATE todos SET title=?, done=? WHERE id=?`: every row with that id
      gets the new title and flag, keeping its id and owner; no other row moves
      or changes. */
  function SetRow(todos: seq<Todo>, id: int, title: string, done: int): (r: seq<Todo>)
    ensures |r| == |todos|
    ensures forall i :: 0 <= i < |todos| ==> r[i].id == todos[i].id && r[i].userId == todos[i].userId
    ensures forall i :: 0 <= i < |todos| && todos[i].id != id ==> r[i] == todos[i]
    ensures forall i :: 0 <= i < |todos| && todos[i].id == id ==> r[i].title == title && r[i].done == done
  {
    if todos == [] then []
    else [if todos[0].id == id then todos[0].(title := title, done := done) else todos[0]]
         + SetRow(todos[1..], id, title, done)
  }

  /** `ORDER BY id DESC` applied to rows already in ascending order. */
  function Reverse(s: seq<Todo>): (r: seq<Todo>)
    ensures |r| == |s|
    ensures forall i :: 0 <= i < |s| ==> r[i] == s[|s| - 1 - i]
  {
    if s == [] then [] else Reverse(s[1..]) + [s[0]]
  }

  // ---- lemmas ----

  /** With UNIQUE emails, looking a user up by email finds exactly that user. */
  lemma FindUserExact(users: seq<User>, u: User)
    requires UniqueEmails(users) && u in users
    ensures FindUser(users, u.email) == Some(u)
  {
    var r := FindUser(users, u.email);
    var i :| 0 <= i < |users| && users[i] == u;
    var j :| 0 <= j < |users| && users[j] == r.value;
    assert i == j;
  }

  /** Appending a user whose email is new keeps the UNIQUE constraint. */
  lemma AppendUserKeepsValid(users: seq<User>, last: nat, u: User)
    requires UsersValid(users, last)
    requires FindUser(users, u.email).None? && u.id == last + 1
    ensures UsersValid(users + [u], last + 1)
  {
  }

  /** Appending a todo with the next id keeps ids ascending and within the
      counter, and the new id exceeds every id already issued. */
  lemma AppendTodoKeepsValid(todos: seq<Todo>, last: nat, t: Todo)
    requires TodosValid(todos, last) && t.id == last + 1 && t.done == 0
    ensures TodosValid(todos + [t], last + 1)
    ensures forall u :: u in todos ==> u.id < t.id
  {
  }

  /** Adding users never breaks the foreign key of existing todos. */
  lemma OwnersExistAppendUser(users: seq<User>, todos: seq<Todo>, u: User)
    requires OwnersExist(users, todos)
    ensures OwnersExist(users + [u], todos)
  {
    forall t | t in todos ensures HasUser(users + [u], t.userId) {
      var w :| w in users && w.id == t.userId;
      assert w in users + [u];
    }
  }

  /** A todo whose owner is a stored user can be appended under the foreign key. */
  lemma OwnersExistAppendTodo(users: seq<User>, todos: seq<Todo>, t: Todo)
    requires OwnersExist(users, todos) && HasUser(users, t.userId)
    ensures OwnersExist(users, todos + [t])
  {
  }

  /** The update keeps every row's owner, so it keeps the foreign key. */
  lemma OwnersExistSetRow(users: seq<User>, todos: seq<Todo>, id: int, title: string, done: int)
    requires OwnersExist(users, todos)
    ensures OwnersExist(users, SetRow(todos, id, title, done))
  {
    var r := SetRow(todos, id, title, done);
    forall t | t in r ensures HasUser(users, t.userId) {
      var i :| 0 <= i < |r| && r[i] == t;
      assert todos[i] in todos;
    }
  }

  /** The update changes no id and stores a flag of 0 or 1, so the table
      stays ascending within its counter with every `done` 0 or 1. */
  lemma SetRowKeepsValid(todos: seq<Todo>, last: nat, id: int, title: string, done: int)
    requires TodosValid(todos, last) && (done == 0 || done == 1)
    ensures TodosValid(SetRow(todos, id, title, done), last)
  {
    var r := SetRow(todos, id, title, done);
    forall t | t in r ensures 1 <= t.id <= last && (t.done == 0 || t.done == 1) {
      var i :| 0 <= i < |r| && r[i] == t;
      assert todos[i] in todos;
    }
  }

  /** A filter of an ascending table is ascending. */
  lemma {:induction false} OwnedAscending(todos: seq<Todo>, uid: int)
    requires Ascending(todos)
    ensures Ascending(Owned(todos, uid))
  {
    if todos != [] {
      OwnedAscending(todos[1..], uid);
      var rest := Owned(todos[1..], uid);
      forall t | t in rest ensures todos[0].id < t.id {
        var k :| 0 <= k < |todos[1..]| && todos[1..][k] == t;
        assert todos[k + 1] == t;
      }
    }
  }

  /** The rows of a list response: the caller's rows, highest id first. */
  lemma ListDescending(todos: seq<Todo>, uid: int)
    requires Ascending(todos)
    ensures Descending(Reverse(Owned(todos, uid)))
    ensures forall t :: t in Reverse(Owned(todos, uid)) <==> t in todos && t.userId == uid
  {
    OwnedAscending(todos, uid);
    ReverseDescending(Owned(todos, uid));
    ReverseSameRows(Owned(todos, uid));
  }

  /** Reversing an ascending sequence gives a descending one. */
  lemma ReverseDescending(s: seq<Todo>)
    requires Ascending(s)
    ensures Descending(Reverse(s))
  {
  }

  /** Reversing keeps exactly the same rows. */
  lemma ReverseSameRows(s: seq<Todo>)
    ensures forall t :: t in Reverse(s) <==> t in s
  {
    var r := Reverse(s);
    forall t ensures t in r <==> t in s {
      if t in r {
        var k :| 0 <= k < |r| && r[k] == t;
        assert s[|s| - 1 - k] == t;
      }
      if t in s {
        var k :| 0 <= k < |s| && s[k] == t;
        assert r[|s| - 1 - k] == t;
      }
    }
  }

  /** The head of a descending sequence is its highest row: two descending
      sequences with the same rows start with the same row. */
  lemma DescendingHeads(a: seq<Todo>, b: seq<Todo>)
    requires Descending(a) && Descending(b) && a != [] && b != []
    requires forall t :: t in a <==> t in b
    ensures a[0] == b[0]
  {
    assert a[0] in b && b[0] in a;
    var k :| 0 <= k < |b| && b[k] == a[0];
    var m :| 0 <= m < |a| && a[m] == b[0];
    assert a[0].id >= a[m].id == b[0].id;
    assert b[0].id >= b[k].id == a[0].id;
  }

  /** The tail of a descending sequence holds every row but the head. */
  lemma DescendingTail(a: seq<Todo>, t: Todo)
    requires Descending(a) && a != []
    ensures t in a[1..] <==> t in a && t != a[0]
  {
    if t in a[1..] {
      var k :| 0 <= k < |a[1..]| && a[1..][k] == t;
      assert a[k + 1].id < a[0].id;
    }
    if t in a && t != a[0] {
      var k :| 0 <= k < |a| && a[k] == t;
      assert a[1..][k - 1] == t;
    }
  }

  /** "The caller's rows in strictly descending id order" determines the list:
      two such sequences with the same rows are equal. */
  lemma {:induction false} DescendingUnique(a: seq<Todo>, b: seq<Todo>)
    requires Descending(a) && Descending(b)
    requires forall t :: t in a <==> t in b
    ensures a == b
  {
    if a != [] || b != [] {
      assert a != [] && b != [] by {
        if a != [] { assert a[0] in b; }
        if b != [] { assert b[0] in a; }
      }
      DescendingHeads(a, b);
      forall t ensures t in a[1..] <==> t in b[1..] {
        DescendingTail(a, t);
        DescendingTail(b, t);
      }
      DescendingUnique(a[1..], b[1..]);
      assert a == [a[0]] + a[1..];
      assert b == [b[0]] + b[1..];
    }
  }

  /** Appending a row changes only its owner's rows, and adds it to theirs last. */
  lemma {:induction false} OwnedAppend(todos: seq<Todo>, t: Todo, v: int)
    ensures Owned(todos + [t], v) == Owned(todos, v) + (if t.userId == v then [t] else [])
  {
    if todos == [] {
      assert todos + [t] == [t];
    } else {
      assert (todos + [t])[1..] == todos[1..] + [t];
      OwnedAppend(todos[1..], t, v);
    }
  }

  /** A freshly appended row with a new id is what `WHERE id=?` returns. */
  lemma {:induction false} FindAppended(todos: seq<Todo>, t: Todo)
    requires forall x :: x in todos ==> x.id != t.id
    ensures FindById(todos + [t], t.id) == Some(t)
  {
    if todos == [] {
      assert todos + [t] == [t];
    } else {
      assert (todos + [t])[1..] == todos[1..] + [t];
      FindAppended(todos[1..], t);
    }
  }

  /** Deleting twice is the same as deleting once. */
  lemma {:induction false} DeleteIdempotent(todos: seq<Todo>, id: int, uid: int)
    ensures DeleteOwned(DeleteOwned(todos, id, uid), id, uid) == DeleteOwned(todos, id, uid)
  {
    if todos != [] {
      DeleteIdempotent(todos[1..], id, uid);
      var t := todos[0];
      var d := DeleteOwned(todos[1..], id, uid);
      if !(t.id == id && t.userId == uid) {
        assert DeleteOwned(todos, id, uid) == [t] + d;
        assert ([t] + d)[1..] == d;
        assert DeleteOwned([t] + d, id, uid) == [t] + DeleteOwned(d, id, uid);
      } else {
        assert DeleteOwned(todos, id, uid) == d;
      }
    }
  }

  /** Deleting when no row matches leaves the table as it was. */
  lemma {:induction false} DeleteAbsent(todos: seq<Todo>, id: int, uid: int)
    requires FindOwned(todos, id, uid).None?
    ensures DeleteOwned(todos, id, uid) == todos
  {
    if todos != [] {
      DeleteAbsent(todos[1..], id, uid);
      assert todos == [todos[0]] + todos[1..];
    }
  }

  /** Deleting one of `uid`'s rows leaves every other user's rows as they were. */
  lemma {:induction false} DeleteIsolation(todos: seq<Todo>, id: int, uid: int, v: int)
    requires v != uid
    ensures Owned(DeleteOwned(todos, id, uid), v) == Owned(todos, v)
  {
    if todos != [] {
      DeleteIsolation(todos[1..], id, uid, v);
      var t := todos[0];
      var d := DeleteOwned(todos[1..], id, uid);
      if !(t.id == id && t.userId == uid) {
        assert DeleteOwned(todos, id, uid) == [t] + d;
        assert ([t] + d)[1..] == d;
        assert Owned([t] + d, v) == (if t.userId == v then [t] else []) + Owned(d, v);
      } else {
        assert DeleteOwned(todos, id, uid) == d;
      }
    }
  }

  /** In an ascending table every later row has a larger id than the first. */
  lemma HeadBelowTail(todos: seq<Todo>)
    requires Ascending(todos) && todos != []
    ensures forall x :: x in todos[1..] ==> todos[0].id < x.id
  {
    forall x | x in todos[1..] ensures todos[0].id < x.id {
      var k :| 0 <= k < |todos[1..]| && todos[1..][k] == x;
      assert todos[k + 1] == x;
    }
  }

  /** The delete keeps the table ascending. */
  lemma {:induction false} DeleteAscending(todos: seq<Todo>, id: int, uid: int)
    requires Ascending(todos)
    ensures Ascending(DeleteOwned(todos, id, uid))
  {
    if todos != [] {
      DeleteAscending(todos[1..], id, uid);
      HeadBelowTail(todos);
    }
  }

  /** With ascending ids the delete removes at most one row. */
  lemma {:induction false} DeleteAtMostOne(todos: seq<Todo>, id: int, uid: int)
    requires Ascending(todos)
    ensures |DeleteOwned(todos, id, uid)| + 1 >= |todos|
  {
    if todos != [] {
      var rest := todos[1..];
      if todos[0].id == id && todos[0].userId == uid {
        HeadBelowTail(todos);
        DeleteAbsent(rest, id, uid);
      } else {
        DeleteAtMostOne(rest, id, uid);
      }
    }
  }

  /** Rewriting rows that all belong to `uid` leaves every other user's rows
      as they were. */
  lemma {:induction false} SetRowIsolation(todos: seq<Todo>, id: int, title: string, done: int, uid: int, v: int)
    requires forall t :: t in todos && t.id == id ==> t.userId == uid
    requires v != uid
    ensures Owned(SetRow(todos, id, title, done), v) == Owned(todos, v)
  {
    if todos != [] {
      SetRowIsolation(todos[1..], id, title, done, uid, v);
      var s := SetRow(todos, id, title, done);
      assert s == [s[0]] + SetRow(todos[1..], id, title, done);
      assert s[0].userId == v <==> todos[0].userId == v;
    }
  }

  /** With ascending ids, an id names at most one row. */
  lemma IdNamesOneRow(todos: seq<Todo>, t: Todo)
    requires Ascending(todos) && t in todos
    ensures forall x :: x in todos && x.id == t.id ==> x == t
  {
    forall x | x in todos && x.id == t.id ensures x == t {
      var i :| 0 <= i < |todos| && todos[i] == x;
      var j :| 0 <= j < |todos| && todos[j] == t;
      assert i == j;
    }
  }

  /** After the update, `WHERE id=?` returns the edited row. */
  lemma SetRowFind(todos: seq<Todo>, id: int, title: string, done: int, t: Todo)
    requires Ascending(todos)
    requires t in todos && t.id == id
    ensures FindById(SetRow(todos, id, title, done), id) == Some(t.(title := title, done := done))
  {
    var s := SetRow(todos, id, title, done);
    var k :| 0 <= k < |todos| && todos[k] == t;
    var r := FindById(s, id);
    var m :| 0 <= m < |s| && s[m] == r.value;
    assert m == k;
  }
}
