/**
 The inference system call as the program runs it, from its checks to its cleanup labels. Run without
 interruption it does what one thread of SyscallModel does alone.
 */
module Syscall {
  import opened Common
  import opened SyscallModel

  const MAX_CONCURRENT := 1024

  class Kernel {
    var active: int
    var engine: Option<nat>
    var lastId: nat
    var live: set<nat>
    var nextBuffer: nat

    ghost predicate Valid()
      reads this
    {
      forall b :: b in live ==> b < nextBuffer
    }

    constructor ()
      ensures Valid() && active == 0 && engine == None && lastId == 1 && live == {}
    {
      active, engine, lastId, live, nextBuffer := 0, None, 1, {}, 0;
    }

    method EngineRegister(e: nat)
      modifies this`engine
      ensures engine == EngineAfter(old(engine), Register(e))
    {
      engine := Some(e);
    }

    method EngineUnregister(e: nat)
      modifies this`engine
      ensures engine == EngineAfter(old(engine), Unregister(e)) && engine != Some(e)
    {
      if engine == Some(e) {
        engine := None;
      }
    }

    /** The error of the engine call, or what the engine returned. */
    method EngineInfer(env: Env) returns (ret: int)
      ensures ret == if engine.Some? then env.engineReturn else ENODEV
    {
      ret := ENODEV;
      if engine.Some? {
        ret := env.engineReturn;
      }
    }

    /** Only a call that may run, and is not one too many, is counted. */
    method CheckPerm(env: Env) returns (ret: int)
      modifies this`active
      ensures ret == 0 <==> env.permError == 0 && old(active) < MAX_CONCURRENT
      ensures ret == 0 || ret == if env.permError != 0 then env.permError else EAGAIN
      ensures active == old(active) + if ret == 0 then 1 else 0
    {
      if env.permError != 0 {
        return env.permError;
      }
      active := active + 1;
      if active > MAX_CONCURRENT {
        active := active - 1;
        return EAGAIN;
      }
      return 0;
    }

    method PutPerm()
      modifies this`active
      ensures active == old(active) - 1
    {
      active := active - 1;
    }

    method Allocate() returns (b: nat)
      requires Valid()
      modifies this`live, this`nextBuffer
      ensures Valid() && b !in old(live) && live == old(live) + {b}
    {
      b := nextBuffer;
      live, nextBuffer := live + {b}, nextBuffer + 1;
    }

    /** A buffer with the user's input, or the error. */
    method CopyIn(env: Env) returns (ret: int, b: nat)
      requires Valid()
      modifies this`live, this`nextBuffer
      ensures Valid()
      ensures ret == 0 <==> env.inputMemory && env.copyInOk
      ensures ret == 0 || ret == if env.inputMemory then EFAULT else ENOMEM
      ensures if ret == 0 then b !in old(live) && live == old(live) + {b} else live == old(live)
    {
      if !env.inputMemory {
        return ENOMEM, 0;
      }
      b := Allocate();
      if !env.copyInOk {
        live := live - {b};
        return EFAULT, b;
      }
      return 0, b;
    }

    method CopyOut(env: Env) returns (written: int)
      requires env.output.Some?
      ensures written == if env.copyOutOk then env.output.value else EFAULT
    {
      written := if env.copyOutOk then env.output.value else EFAULT;
    }

    method Infer(env: Env) returns (r: int)
      requires Valid()
      modifies this
      ensures Valid() && active == old(active) && live == old(live) && engine == old(engine)
      ensures r == Outcome(old(active), engine, MAX_CONCURRENT, env)
      ensures lastId == old(lastId) + if TakesNumber(old(active), MAX_CONCURRENT, env) then 1 else 0
    {
      if env.argError != 0 {
        return env.argError;
      }
      var ret := CheckPerm(env);
      if ret != 0 {
        return ret;
      }
      var written := 0;
      label outPerm: {
        if !env.nameOk {
          ret := EFAULT;
          break outPerm;
        }
        if env.inputError != 0 {
          ret := env.inputError;
          break outPerm;
        }
        var input;
        ret, input := CopyIn(env);
        if ret != 0 {
          break outPerm;
        }
        label outIn: {
          var output: Option<nat> := None;
          if env.output.Some? {
            if !env.outputMemory {
              ret := ENOMEM;
              break outIn;
            }
            var b := Allocate();
            output := Some(b);
          }
          ret := EngineInfer(env);
          lastId := lastId + 1;
          if ret == 0 && output.Some? {
            written := CopyOut(env);
            if written < 0 {
              ret := written;
            }
          }
          if output.Some? {
            live := live - {output.value};
          }
        }
        live := live - {input};
      }
      PutPerm();
      return if ret != 0 then ret else written;
    }
  }
}
