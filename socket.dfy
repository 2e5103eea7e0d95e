/**
 * The live observer registry of functions/socket.js: a dictionary from
 * class id to the sockets of the teachers watching that class, and the
 * trigger that tells them when a student reports "not OK".
 */
module Socket {
  import opened Common
  import opened Firestore

  /** A connected WebSocket, by identity. */
  type SocketId = nat

  /** What `client.send` carries, before `JSON.stringify`. */
  datatype Payload = Payload(studentId: string, status: Value, message: string)

  /** One `client.send(payload)`. */
  datatype Send = Send(to: SocketId, payload: Payload)

  const NOT_OK_MESSAGE: string := "A student has reported a status of 'not OK'."

  /** `request.url.split("/")[1]`: the first segment after the leading
      slash. A url without a slash has no such segment; the lookup is then
      `undefined`, which as a dictionary key is the string "undefined". */
  function ClassIdFromUrl(url: string): (classId: string)
    ensures |Split(url, '/')| >= 2 ==> classId == Split(url, '/')[1]
    ensures |Split(url, '/')| < 2 ==> classId == "undefined"
  {
    var parts := Split(url, '/');
    if |parts| >= 2 then parts[1] else "undefined"
  }

  /** A url "/<classId>" or "/<classId>/..." registers under `classId`. */
  lemma ClassIdIsFirstSegment(classId: string, rest: string)
    requires '/' !in classId
    ensures ClassIdFromUrl("/" + classId) == classId
    ensures ClassIdFromUrl("/" + classId + "/" + rest) == classId
  {
    SplitNoSeparator(classId, '/');
    SplitPeel("", '/', classId);
    assert "" + ['/'] + classId == "/" + classId;
    SplitPeel(classId, '/', rest);
    SplitPeel("", '/', classId + "/" + rest);
    assert classId + ['/'] + rest == classId + "/" + rest;
    assert "" + ['/'] + (classId + "/" + rest) == "/" + classId + "/" + rest;
  }

  /** A url without any slash registers under "undefined". */
  lemma NoSlashIsUndefined(url: string)
    requires '/' !in url
    ensures ClassIdFromUrl(url) == "undefined"
  {
    SplitNoSeparator(url, '/');
  }

  /** `list.filter((client) => client !== ws)`. */
  function Without(s: seq<SocketId>, ws: SocketId): (r: seq<SocketId>)
    ensures ws !in r
    ensures forall x :: x in r <==> x in s && x != ws
    ensures |r| <= |s|
  {
    if s == [] then []
    else if s[0] == ws then Without(s[1..], ws)
    else [s[0]] + Without(s[1..], ws)
  }

  /** Filtering keeps the order of what it keeps: it distributes over
      concatenation. */
  lemma {:induction false} WithoutConcat(a: seq<SocketId>, b: seq<SocketId>, ws: SocketId)
    ensures Without(a + b, ws) == Without(a, ws) + Without(b, ws)
  {
    if a != [] {
      assert (a + b)[1..] == a[1..] + b;
      WithoutConcat(a[1..], b, ws);
    } else {
      assert a + b == b;
    }
  }

  /** A list without the socket is left as it is. */
  lemma {:induction false} WithoutAbsent(s: seq<SocketId>, ws: SocketId)
    requires ws !in s
    ensures Without(s, ws) == s
  {
    if s != [] {
      WithoutAbsent(s[1..], ws);
      assert s == [s[0]] + s[1..];
    }
  }

  /** Filtering twice is filtering once. */
  lemma WithoutIdempotent(s: seq<SocketId>, ws: SocketId)
    ensures Without(Without(s, ws), ws) == Without(s, ws)
  {
    WithoutAbsent(Without(s, ws), ws);
  }

  /** The list of a class, empty when the class has none. */
  function ClientsOf(classClients: map<string, seq<SocketId>>, classId: string): (s: seq<SocketId>)
    ensures classId !in classClients ==> s == []
    ensures classId in classClients ==> s == classClients[classId]
  {
    if classId in classClients then classClients[classId] else []
  }

  /** The sockets of `s` that are open, in order. */
  function OpenOnly(s: seq<SocketId>, open: set<SocketId>): (r: seq<SocketId>)
    ensures forall x :: x in r <==> x in s && x in open
    ensures |r| <= |s|
  {
    if s == [] then []
    else if s[0] in open then [s[0]] + OpenOnly(s[1..], open)
    else OpenOnly(s[1..], open)
  }

  /** A property a plain `{}` inherits from `Object.prototype`. */
  predicate IsInheritedKey(k: string)
  {
    k in {"constructor", "__proto__", "toString", "toLocaleString", "valueOf", "hasOwnProperty",
          "isPrototypeOf", "propertyIsEnumerable", "__defineGetter__", "__defineSetter__",
          "__lookupGetter__", "__lookupSetter__"}
  }

  /** The module-level `classClients` dictionary. */
  class Registry {
    var classClients: map<string, seq<SocketId>>

    constructor ()
      ensures classClients == map[]
    {
      classClients := map[];
    }

    /** The "connection" handler: the list of the url's class is created if
        absent and the socket appended to it. Returns the class id the close
        handler remembers. A class id that names a property every object
        inherits finds that property instead of a list: it is truthy, so no
        list is created, and it has no `push`, so the handler throws before
        registering the socket or its close handler. */
    method OnConnection(ws: SocketId, url: string) returns (classId: string, registered: bool)
      modifies this
      ensures classId == ClassIdFromUrl(url)
      ensures registered <==> !IsInheritedKey(classId)
      ensures registered ==>
        classClients == old(classClients)[classId := ClientsOf(old(classClients), classId) + [ws]]
      ensures !registered ==> classClients == old(classClients)
    {
      classId := ClassIdFromUrl(url);
      if IsInheritedKey(classId) {
        registered := false;
        return;
      }
      registered := true;
      if classId !in classClients {
        classClients := classClients[classId := []];
      }
      classClients := classClients[classId := classClients[classId] + [ws]];
    }

    /** The "close" handler of a socket registered under `classId` (whose
        list therefore exists): every occurrence of the socket leaves the
        list, the others stay in order, the other classes are untouched. */
    method OnClose(ws: SocketId, classId: string)
      requires classId in classClients
      modifies this
      ensures classClients == old(classClients)[classId := Without(old(classClients)[classId], ws)]
    {
      classClients := classClients[classId := Without(classClients[classId], ws)];
    }

    /** `notifyTeacherOnStatusChange` on the update of student `studentId`
        of class `classId`, from `before` to `after`; `open` are the
        sockets whose `readyState` is OPEN. Nothing is sent unless the new
        `ok` is exactly `false`; `before` is never read, so an update from
        `false` to `false` notifies too. Otherwise each open socket of that
        class, in list order, gets the same payload. */
    method NotifyTeacherOnStatusChange(classId: string, studentId: string, before: StudentDoc, after: StudentDoc,
                                       open: set<SocketId>)
      returns (sent: seq<Send>)
      ensures after.ok != Bool(false) ==> sent == []
      ensures after.ok == Bool(false) ==>
        |sent| == |OpenOnly(ClientsOf(classClients, classId), open)| &&
        forall i :: 0 <= i < |sent| ==>
          sent[i] == Send(OpenOnly(ClientsOf(classClients, classId), open)[i],
                          Payload(studentId, Bool(false), NOT_OK_MESSAGE))
    {
      sent := [];
      if after.ok == Bool(false) && classId in classClients {
        var clients := classClients[classId];
        for k := 0 to |clients|
          invariant |sent| == |OpenOnly(clients[..k], open)|
          invariant forall i :: 0 <= i < |sent| ==>
            sent[i] == Send(OpenOnly(clients[..k], open)[i], Payload(studentId, after.ok, NOT_OK_MESSAGE))
        {
          OpenOnlySnoc(clients[..k], clients[k], open);
          assert clients[..k + 1] == clients[..k] + [clients[k]];
          if clients[k] in open {
            sent := sent + [Send(clients[k], Payload(studentId, after.ok, NOT_OK_MESSAGE))];
          }
        }
        assert clients[..|clients|] == clients;
      }
    }
  }

  /** Filtering a list extended by one socket. */
  lemma {:induction false} OpenOnlySnoc(s: seq<SocketId>, x: SocketId, open: set<SocketId>)
    ensures OpenOnly(s + [x], open) == OpenOnly(s, open) + (if x in open then [x] else [])
  {
    if s == [] {
      assert [] + [x] == [x];
      assert [x][1..] == [];
    } else {
      assert (s + [x])[1..] == s[1..] + [x];
      OpenOnlySnoc(s[1..], x, open);
    }
  }

  /** A notification reaches exactly the open sockets registered under the
      updated student's class: each send goes to one of them, and each of
      them gets one. */
  lemma NotifiedAreOpenClients(classClients: map<string, seq<SocketId>>, classId: string,
                               open: set<SocketId>, ws: SocketId)
    ensures ws in OpenOnly(ClientsOf(classClients, classId), open) <==>
      classId in classClients && ws in classClients[classId] && ws in open
  {
  }
}
