/** storagemgr_parse_sensor_data from sensor_db.c, with the database as an oracle. */
module StorageMgr {
  import opened Util
  import opened Windows

  /** What the environment does if one iteration of the loop asks: whether init_connection returns a
      connection, what sbuffer_remove hands over, what insert_sensor returns. The loop ends with the
      list, when the buffer is gone. */
  datatype Turn = Turn(initOk: bool, poll: Option<Reading>, status: int)

  const MAX_ATTEMPTS: nat := 3

  /** The iterations spent until init_connection first succeeds, that one included. */
  function ConnectingTurns(env: seq<Turn>): (n: nat)
    ensures n <= |env|
    ensures forall j :: 0 <= j < n - 1 ==> !env[j].initOk
    ensures n < |env| ==> n > 0 && env[n - 1].initOk
  {
    if env == [] then 0
    else if env[0].initOk then 1
    else
      assert forall j :: 1 <= j < |env| ==> env[j] == env[1..][j - 1];
      1 + ConnectingTurns(env[1..])
  }

  function Polls(env: seq<Turn>): seq<Option<Reading>> {
    seq(|env|, i requires 0 <= i < |env| => env[i].poll)
  }

  /** The loop exits the process exactly when it starts without a connection, its first three attempts
      fail, and it comes round again. Otherwise every reading it removes is passed to insert_sensor,
      once and in order, whatever the earlier inserts returned. */
  method ParseSensorData(conn: bool, env: seq<Turn>) returns (exited: bool, attempted: seq<Reading>)
    ensures exited <==> !conn && |env| > 3 && forall j :: 0 <= j < 3 ==> !env[j].initOk
    ensures attempted == if exited then [] else Somes(Polls(env[if conn then 0 else ConnectingTurns(env)..]))
  {
    hide Somes;
    var connected, connAttempts := conn, 0;
    ghost var start := if conn then 0 else ConnectingTurns(env);
    attempted, exited := [], false;
    SomesNone();
    for i := 0 to |env|
      invariant connected ==> start <= i && attempted == Somes(Polls(env[start..i]))
      invariant connected && !conn ==> 0 < start <= MAX_ATTEMPTS && env[start - 1].initOk
      invariant !connected ==> !conn && attempted == [] && connAttempts == i <= MAX_ATTEMPTS
      invariant !connected ==> forall j :: 0 <= j < i ==> !env[j].initOk
    {
      if !connected {
        if connAttempts == MAX_ATTEMPTS {
          exited := true;
          return;
        }
        connected := env[i].initOk;
        connAttempts := connAttempts + 1;
        ConnectingFound(env, i);
        assert connected ==> env[start..i + 1] == [];
        continue;
      }
      assert env[start..i + 1] == env[start..i] + [env[i]];
      PollsAppend(env[start..i], env[i]);
      SomesConcat(Polls(env[start..i]), [env[i].poll]);
      SomesOne(env[i].poll);
      if env[i].poll.Some? {
        var insertStatus := env[i].status;
        attempted := attempted + [env[i].poll.value];
        if insertStatus != 0 {
          connAttempts := connAttempts + 1;
          continue;
        }
      }
      connAttempts := 0;
    }
    if connected {
      assert env[..|env|] == env;
      assert env[start..|env|] == env[start..];
    } else {
      NeverFound(env);
      assert env[start..] == [];
    }
  }

  lemma SomesNone()
    ensures Somes<Reading>([]) == [] && Polls([]) == []
  {
  }

  lemma SomesOne(o: Option<Reading>)
    ensures Somes([o]) == match o case None => [] case Some(r) => [r]
  {
    assert [o][1..] == [];
  }

  lemma PollsAppend(env: seq<Turn>, t: Turn)
    ensures Polls(env + [t]) == Polls(env) + [t.poll]
  {
  }

  lemma ConnectingFound(env: seq<Turn>, i: nat)
    requires i < |env| && forall j :: 0 <= j < i ==> !env[j].initOk
    ensures env[i].initOk ==> ConnectingTurns(env) == i + 1
  {
    var n := ConnectingTurns(env);
    if env[i].initOk {
      assert !(n < i + 1) && !(n > i + 1);
    }
  }

  lemma {:induction false} NeverFound(env: seq<Turn>)
    requires forall j :: 0 <= j < |env| ==> !env[j].initOk
    ensures ConnectingTurns(env) == |env|
  {
  }
}
