/**
  The process launcher: starts processes on request, stops them in steps (terminate, kill,
  give up), and tells its client once how each of them ended.
 */
module Launcher {

  /** `QProcess::ProcessState` */
  datatype ProcessState = NotRunning | Starting | Running

  datatype StopState = Inactive | Terminating | Killing

  /** What has been done to a process to stop it. */
  datatype Signal = Terminate | Kill

  class Process {
    const token: nat
    var state: ProcessState
    var stopState: StopState
    /** Whether the single-shot stop timer is running. */
    var timerArmed: bool
    /** Whether the socket handler still listens to the signals of this process. */
    var connected: bool
    /** Signals sent by the stop procedure that is under way. */
    ghost var signals: seq<Signal>

    /** The stop procedure is in step with the signals sent: kill only after terminate, and each once. */
    ghost predicate InStep()
      reads this
    {
      match stopState
      case Inactive => signals == []
      case Terminating => signals == [Terminate]
      case Killing => signals == [Terminate, Kill]
    }

    /** Nothing of a stop procedure outlives the run it is for. */
    ghost predicate Orderly()
      reads this
    {
      InStep() && (timerArmed <==> stopState != Inactive) && (state == NotRunning ==> stopState == Inactive)
    }

    constructor (token: nat)
      ensures this.token == token && state == NotRunning && connected && Orderly()
    {
      this.token := token;
      state := NotRunning;
      stopState := Inactive;
      timerArmed := false;
      connected := true;
      signals := [];
    }

    /** `cancel`; answers whether `failedToStop` was emitted. */
    method Cancel() returns (failedToStop: bool)
      requires InStep()
      modifies this`stopState, this`timerArmed, this`signals
      ensures failedToStop <==> old(stopState) == Killing
      ensures InStep()
      ensures failedToStop ==> old(signals) == [Terminate, Kill] && stopState == Inactive
      ensures !failedToStop ==>
                && timerArmed
                && stopState == (if old(stopState) == Inactive then Terminating else Killing)
                && signals == old(signals) + [if old(stopState) == Inactive then Terminate else Kill]
    {
      failedToStop := false;
      match stopState
      case Inactive =>
        stopState := Terminating;
        timerArmed := true;
        signals := signals + [Terminate];
      case Terminating =>
        stopState := Killing;
        timerArmed := true;
        signals := signals + [Kill];
      case Killing =>
        stopState := Inactive;
        signals := [];
        failedToStop := true;
    }

    method StopStopProcedure()
      modifies this`stopState, this`timerArmed, this`signals
      ensures stopState == Inactive && !timerArmed && InStep()
    {
      stopState := Inactive;
      timerArmed := false;
      signals := [];
    }
  }

  /** The packets that end a run: the process could not be started, or it is gone. */
  datatype Packet = ProcessError(token: nat) | ProcessFinished(token: nat, crashed: bool)

  function Ends(packets: seq<Packet>, token: nat): nat {
    if packets == [] then 0
    else Ends(packets[..|packets| - 1], token) + if packets[|packets| - 1].token == token then 1 else 0
  }

  function Starts(accepted: seq<nat>, token: nat): nat {
    if accepted == [] then 0
    else Starts(accepted[..|accepted| - 1], token) + if accepted[|accepted| - 1] == token then 1 else 0
  }

  lemma OneMoreEnd(packets: seq<Packet>, p: Packet)
    ensures forall token :: Ends(packets + [p], token) == Ends(packets, token) + if p.token == token then 1 else 0
  {
    assert (packets + [p])[..|packets|] == packets;
  }

  lemma OneMoreStart(accepted: seq<nat>, t: nat)
    ensures forall token :: Starts(accepted + [t], token) == Starts(accepted, token) + if t == token then 1 else 0
  {
    assert (accepted + [t])[..|accepted|] == accepted;
  }

  class LauncherSocketHandler {
    var processes: map<nat, Process>
    var packets: seq<Packet>
    /** Whether the connection is shut down. */
    var closed: bool
    /** The tokens of all start requests that were acted on. */
    ghost var accepted: seq<nat>
    /** Every process there has been. */
    ghost var all: set<Process>

    ghost predicate IsRunning(token: nat)
      reads this, all
    {
      token in processes && processes[token] in all && processes[token].state != NotRunning
    }

    ghost predicate TableOk()
      reads this, all
    {
      && (forall t :: t in processes ==> processes[t] in all && processes[t].token == t)
      && (forall t :: t in processes && !closed ==> processes[t].Orderly())
      && (forall p :: p in all ==>
            p.InStep() && (p.connected <==> !closed && p.token in processes && processes[p.token] == p))
    }

    /** Every start that was acted on has led to one terminal packet, or its process is still running. */
    ghost predicate OnePacketEach()
      reads this, all
    {
      && (!closed ==> forall t: nat :: Ends(packets, t) + (if IsRunning(t) then 1 else 0) == Starts(accepted, t))
      && (closed ==> forall t: nat :: Ends(packets, t) <= Starts(accepted, t))
    }

    ghost predicate Valid()
      reads this, all
    {
      TableOk() && OnePacketEach()
    }

    constructor ()
      ensures Valid() && packets == [] && accepted == [] && !closed && all == {}
    {
      processes := map[];
      packets := [];
      closed := false;
      accepted := [];
      all := {};
    }

    method SendPacket(p: Packet)
      modifies this`packets
      ensures packets == old(packets) + [p]
      ensures forall t :: Ends(packets, t) == Ends(old(packets), t) + if p.token == t then 1 else 0
    {
      OneMoreEnd(packets, p);
      packets := packets + [p];
    }

    // -------------------------------------------------------------------
    // Packets from the client
    // -------------------------------------------------------------------

    /** `handleStartPacket`. A process that is started again does not meet the stop procedure of its last run. */
    method HandleStartPacket(token: nat)
      requires Valid() && !closed
      modifies this, all
      ensures Valid() && !closed && packets == old(packets) && IsRunning(token)
      ensures accepted == old(accepted) + if old(IsRunning(token)) then [] else [token]
      ensures !old(IsRunning(token)) ==>
                && processes[token].state == Starting && processes[token].stopState == Inactive
                && !processes[token].timerArmed
      ensures old(IsRunning(token)) ==>
                processes == old(processes) && all == old(all) && forall p :: p in all ==> unchanged(p)
      ensures fresh(all - old(all)) && old(all) <= all
      ensures forall t :: t != token ==> (t in processes <==> t in old(processes))
      ensures forall t :: t in old(processes) ==> processes[t] == old(processes[t])
      ensures forall p :: p in old(all) && p.token != token ==> unchanged(p)
    {
      hide Ends, Starts;
      if token !in processes {
        var p := new Process(token);
        processes := processes[token := p];
        all := all + {p};
      }
      var process := processes[token];
      if process.state != NotRunning {
        return;
      }
      OneMoreStart(accepted, token);
      process.state := Starting;
      accepted := accepted + [token];
    }

    /** `handleStopPacket`: one step of the stop procedure. */
    method HandleStopPacket(token: nat)
      requires Valid() && !closed
      modifies this, all
      ensures Valid() && !closed && accepted == old(accepted) && all == old(all)
      ensures !old(IsRunning(token)) ==>
                packets == old(packets) && processes == old(processes) && forall p :: p in all ==> unchanged(p)
      ensures old(IsRunning(token)) ==>
                if old(processes[token].stopState) == Killing then
                  processes == old(processes) - {token} && packets == old(packets) + [ProcessFinished(token, true)]
                  && old(processes[token].signals) == [Terminate, Kill]
                else
                  && IsRunning(token) && packets == old(packets) && processes == old(processes)
                  && processes[token].timerArmed
                  && (if old(processes[token].stopState) == Inactive then
                        processes[token].stopState == Terminating && processes[token].signals == [Terminate]
                      else
                        processes[token].stopState == Killing && processes[token].signals == [Terminate, Kill])
      ensures forall p :: p in all && (token in old(processes) ==> p != old(processes[token])) ==> unchanged(p)
    {
      hide Ends, Starts;
      if token !in processes || processes[token].state == NotRunning {
        return;
      }
      CancelProcess(processes[token]);
    }

    /** `cancel` of a process in the table, and the handler of `failedToStop`. */
    method CancelProcess(p: Process)
      requires TableButTimer(p) && OnePacketEach() && !closed && p.state != NotRunning
      modifies this`processes, this`packets, p
      ensures Valid() && !closed
      ensures if old(p.stopState) == Killing then
                processes == old(processes) - {p.token} && packets == old(packets) + [ProcessFinished(p.token, true)]
                && old(p.signals) == [Terminate, Kill] && p.stopState == Inactive && !p.connected
                && p.state == old(p.state)
              else
                && processes == old(processes) && packets == old(packets) && p.state == old(p.state) && p.timerArmed
                && p.connected == old(p.connected)
                && p.stopState == (if old(p.stopState) == Inactive then Terminating else Killing)
                && p.signals == old(p.signals) + [if old(p.stopState) == Inactive then Terminate else Kill]
    {
      hide Ends, Starts;
      var failedToStop := p.Cancel();
      if failedToStop {
        HandleStopFailure(p);
      }
    }

    /** The invariant on processes, but for the timer of `p`, which may just have fired. */
    ghost predicate TableButTimer(p: Process)
      reads this, all
    {
      && p in all && p.token in processes && processes[p.token] == p && p.InStep()
      && (forall t :: t in processes ==> processes[t] in all && processes[t].token == t)
      && (forall t :: t in processes && t != p.token ==> processes[t].Orderly())
      && (forall q :: q in all ==>
            q.InStep() && (q.connected <==> !closed && q.token in processes && processes[q.token] == q))
    }

    /** `handleStopFailure`: the process did not react to being killed; forget about it. */
    method HandleStopFailure(p: Process)
      requires p in all && p.token in processes && processes[p.token] == p && !closed && p.state != NotRunning
      requires forall t :: t in processes ==> processes[t] in all && processes[t].token == t
      requires forall t :: t in processes && t != p.token ==> processes[t].Orderly()
      requires forall q :: q in all ==> q.InStep() && (q.connected <==> q.token in processes && processes[q.token] == q)
      requires OnePacketEach()
      modifies this`processes, this`packets, p`connected
      ensures Valid() && !p.connected
      ensures processes == old(processes) - {p.token} && packets == old(packets) + [ProcessFinished(p.token, true)]
    {
      hide Ends, Starts;
      p.connected := false;
      processes := processes - {p.token};
      SendPacket(ProcessFinished(p.token, true));
    }

    /** `handleShutdownPacket`: running processes are terminated, and after it nothing is sent any more. */
    method HandleShutdownPacket() returns (terminated: set<nat>)
      requires Valid() && !closed
      modifies this`closed, all`connected
      ensures Valid() && closed
      ensures forall p :: p in all ==> !p.connected
      ensures forall t :: t in terminated <==> old(IsRunning(t))
    {
      hide Ends, Starts;
      terminated := DisconnectAll();
      closed := true;
    }

    /** The loop over the table. */
    method DisconnectAll() returns (terminated: set<nat>)
      requires forall t :: t in processes ==> processes[t] in all && processes[t].token == t
      requires forall p :: p in all && p.connected ==> p.token in processes && processes[p.token] == p
      modifies all`connected
      ensures forall p :: p in all ==> !p.connected
      ensures forall t :: t in terminated <==> t in processes && processes[t].state != NotRunning
    {
      terminated := {};
      var left := processes.Keys;
      while left != {}
        invariant left <= processes.Keys
        invariant forall p :: p in all && p.connected ==> p.token in left && processes[p.token] == p
        invariant forall t :: t in terminated <==> t in processes && t !in left && processes[t].state != NotRunning
        decreases |left|
      {
        var t :| t in left;
        processes[t].connected := false;
        if processes[t].state != NotRunning {
          terminated := terminated + {t};
        }
        left := left - {t};
      }
    }

    // -------------------------------------------------------------------
    // What processes and timers do
    // -------------------------------------------------------------------

    method ProcessStarted(p: Process)
      requires Valid() && p in all && p.state == Starting
      modifies p`state
      ensures Valid() && p.state == Running
    {
      hide Ends, Starts;
      p.state := Running;
    }

    /** A process fails to start; `handleProcessError` if somebody listens. */
    method ProcessFailsToStart(p: Process)
      requires Valid() && p in all && p.state == Starting
      modifies p, this`packets
      ensures Valid() && p.state == NotRunning
      ensures packets == old(packets) + if old(p.connected) then [ProcessError(p.token)] else []
      ensures old(p.connected) ==> p.connected && p.stopState == Inactive && !p.timerArmed
    {
      hide Ends, Starts;
      p.state := NotRunning;
      if p.connected {
        p.StopStopProcedure();
        SendPacket(ProcessError(p.token));
      }
    }

    /** A process ends; `handleProcessFinished` if somebody listens. */
    method ProcessEnds(p: Process, crashed: bool)
      requires Valid() && p in all && p.state == Running
      modifies p, this`packets
      ensures Valid() && p.state == NotRunning
      ensures packets == old(packets) + if old(p.connected) then [ProcessFinished(p.token, crashed)] else []
      ensures old(p.connected) ==> p.connected && p.stopState == Inactive && !p.timerArmed
    {
      hide Ends, Starts;
      p.state := NotRunning;
      if p.connected {
        p.StopStopProcedure();
        SendPacket(ProcessFinished(p.token, crashed));
      }
    }

    /**
      A stop timer fires. For a process in the table it is running, and this is the next
      step of stopping it; for one that has been given up nobody hears of it.
     */
    method TimerFires(p: Process)
      requires Valid() && p in all && p.timerArmed
      modifies this`processes, this`packets, p
      ensures Valid() && accepted == old(accepted)
      ensures !old(p.connected) ==> packets == old(packets) && processes == old(processes)
      ensures old(p.connected) ==>
                && old(p.state) != NotRunning && p.state == old(p.state)
                && (if old(p.stopState) == Killing then
                      packets == old(packets) + [ProcessFinished(p.token, true)]
                      && processes == old(processes) - {p.token} && !p.connected
                    else
                      packets == old(packets) && processes == old(processes) && p.connected
                      && old(p.stopState) == Terminating && p.stopState == Killing && p.timerArmed
                      && p.signals == [Terminate, Kill])
    {
      hide Ends, Starts;
      p.timerArmed := false;
      if p.connected {
        CancelProcess(p);
      } else {
        var failedToStop := p.Cancel();
      }
    }
  }
}
