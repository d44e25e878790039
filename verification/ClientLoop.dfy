/**
 * The tests that the select loop of process_mails makes over all connections (client/src/client.c).
 */
module ClientLoop {
  import opened ClientFsm
  import opened Connections

  /** get_active_connection: the first one on a socket. */
  method GetActiveConnection(conns: seq<Connection>, socket: int) returns (active: Connection?)
    ensures match active
      case null => forall i :: 0 <= i < |conns| ==> conns[i].socket != socket
      case c => exists i :: 0 <= i < |conns| && c == conns[i] && c.socket == socket &&
                  forall j :: 0 <= j < i ==> conns[j].socket != socket
  {
    active := null;
    for i := 0 to |conns|
      invariant active == null && forall j :: 0 <= j < i ==> conns[j].socket != socket
    {
      if conns[i].socket == socket {
        return conns[i];
      }
    }
  }

  /** The loop ends exactly when no connection is running any more. */
  method CheckConnectionsForFinish(conns: seq<Connection>) returns (finished: bool)
    ensures finished <==> forall i :: 0 <= i < |conns| ==> !Running(conns[i].state)
  {
    finished := true;
    for i := 0 to |conns|
      invariant finished <==> forall j :: 0 <= j < i ==> !Running(conns[j].state)
    {
      if conns[i].state != INVALID && conns[i].state != FINISH && conns[i].state != S_ERROR {
        finished := false;
      }
    }
  }

  /** The write set is exactly the sockets of running connections with bytes to send. */
  method SetConnectionsNeedWrite(conns: seq<Connection>) returns (writeFS: set<int>)
    ensures forall s :: s in writeFS <==> exists i :: 0 <= i < |conns| && Wants(conns[i], s)
  {
    writeFS := {};
    for i := 0 to |conns|
      invariant forall s :: s in writeFS <==> exists j :: 0 <= j < i && Wants(conns[j], s)
    {
      if conns[i].toSend > 0 && conns[i].state != INVALID && conns[i].state != FINISH && conns[i].state != S_ERROR {
        assert Wants(conns[i], conns[i].socket);
        writeFS := writeFS + {conns[i].socket};
      }
    }
  }

  predicate Wants(c: Connection, s: int)
    reads c
  {
    c.socket == s && c.toSend > 0 && Running(c.state)
  }
}
