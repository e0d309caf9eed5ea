/** One asynchronous request as the object the server keeps for it (`async_invoke.cpp`). Every method
    is proved to do what the state machine says one request does. */
module AsyncInvocations {
  import opened Values
  import RT = RequestTable

  /** The clock and the threads. They move on their own: each look at them may find that time has
      passed and that the thread in question has finished. A thread that has finished stays finished. */
  class World {
    var clock: nat
    var done: set<uint64>

    constructor (clock: nat)
      ensures View() == RT.Env(clock, {})
    {
      this.clock := clock;
      done := {};
    }

    function View(): RT.Env
      reads this
    {
      RT.Env(clock, done)
    }

    method GetCurrentTimestamp() returns (now: nat, ghost dt: nat)
      modifies this
      ensures View() == old(View()).(clock := old(clock) + dt) && now == clock
    {
      var passed: nat :| 0 <= passed;
      clock := clock + passed;
      now, dt := clock, passed;
    }

    /** `future.wait_for(0) == ready` for the given thread. */
    method HasFinished(thread: uint64) returns (ready: bool, ghost finish: bool)
      modifies this
      ensures View() == RT.SampleThread(old(View()), thread, RT.Obs(finish, 0))
      ensures ready == (thread in done)
    {
      var finishes: bool := *;
      if finishes {
        done := done + {thread};
      }
      ready, finish := thread in done, finishes;
    }

    /** `future.wait_for(ns) == ready`: it comes back early only if the thread has finished. */
    method WaitFor(thread: uint64, ns: nat) returns (ready: bool, ghost finish: bool, ghost waited: nat)
      modifies this
      ensures View() == RT.Elapse(RT.SampleThread(old(View()), thread, RT.Obs(finish, 0)), waited)
      ensures ready == (thread in done) && (!ready ==> ns <= waited) && (ns == 0 ==> waited == 0)
    {
      ready, finish := HasFinished(thread);
      var time: nat :| 0 <= time;
      var passed := if ns == 0 then 0 else if ready then time else ns + time;
      clock, waited := clock + passed, passed;
    }

    /** `std::async`: the thread with this number is running from now on. */
    method Launch(thread: uint64)
      modifies this
      ensures View() == old(View()).(done := old(done) - {thread})
    {
      done := done - {thread};
    }
  }

  class AsyncInvoke {
    const thread: uint64
    const cfg: RT.Config
    const input: AnyValue
    var valid: bool
    var invalidated: bool
    var lastAccess: nat

    function View(): RT.Entry
      reads this
    {
      RT.Entry(input, valid, invalidated, lastAccess)
    }

    constructor (world: World, thread: uint64, cfg: RT.Config, input: AnyValue, now: nat)
      ensures this.thread == thread && this.cfg == cfg && View() == RT.Entry(input, true, false, now)
    {
      this.thread, this.cfg, this.input := thread, cfg, input;
      valid, invalidated, lastAccess := true, false, now;
    }

    /** The access is recorded before the wait. A wait for 0 ns (`IsReady`) is one look at the thread. */
    method WaitForReady(world: World, ns: nat) returns (ready: bool, ghost o: RT.Obs, ghost waited: nat)
      modifies world, this`lastAccess
      ensures var (env, e, seen) := RT.WaitForReady(old(world.View()), thread, old(View()), o);
        (world.View(), View(), ready) == (RT.Elapse(env, waited), e, seen)
      ensures ready || !valid || invalidated || ns <= waited
      ensures ns == 0 ==> waited == 0
    {
      if !valid || invalidated {
        return false, RT.Obs(false, 0), 0;
      }
      var now, dt := world.GetCurrentTimestamp();
      lastAccess := now;
      ghost var finish;
      ready, finish, waited := world.WaitFor(thread, ns);
      o := RT.Obs(finish, dt);
    }

    method IsReadyForRemoval(world: World) returns (remove: bool, ghost o: RT.Obs)
      modifies world
      ensures (world.View(), remove) == RT.IsReadyForRemoval(cfg, old(world.View()), thread, View(), o)
    {
      if !valid {
        return true, RT.Obs(false, 0);
      }
      var isReady, finish := world.HasFinished(thread);
      var now, dt := world.GetCurrentTimestamp();
      var expired := Sub64(now, lastAccess) > cfg.expirationNs;
      return isReady && (invalidated || expired), RT.Obs(finish, dt);
    }

    /** None stands for the failure reply of an operation that is not possible. */
    method GetReply(world: World) returns (reply: Option<Outcome>, ghost o: RT.Obs)
      modifies world, this`valid
      ensures (world.View(), View(), reply) == RT.TakeReply(cfg, old(world.View()), thread, old(View()), o)
    {
      if !valid {
        return None, RT.Obs(false, 0);
      }
      var finished, finish := world.HasFinished(thread);
      if !finished || invalidated {
        return None, RT.Obs(finish, 0);
      }
      valid := false;
      return Some(cfg.protocol(thread, input)), RT.Obs(finish, 0);
    }

    method Invalidate()
      modifies this`invalidated
      ensures View() == old(View()).(invalidated := true)
    {
      invalidated := true;
    }
  }
}
