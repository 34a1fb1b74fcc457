/**
  * The publisher service's registered-child path: launch an effect worker, broker its packets,
  * dispose of worker and query volume, and classify the outcome for the authenticated client.
  * The operating system, the worker and the wire are an arbitrary environment.
  */
module PublisherService {
  import opened Wrappers

  const SERVICE_SPECIFIC_ERROR := 1066

  datatype ServiceError =
    | StaleReviewedInstall
    | StaleReviewedMaintenance
    | RevisionChangedBeforeEffects
    | PreflightRefused
    | WorkerClosureUnknown
    | QueryClosureUnknown
    | WireLost
    | OtherError

  /** Errors the service reports as refusals before effects, whatever else it knows. */
  predicate Definite(e: ServiceError) {
    e.StaleReviewedInstall? || e.StaleReviewedMaintenance? || e.RevisionChangedBeforeEffects?
  }

  /** The last packet of a worker; a missing member raises when it is read. */
  datatype Terminal = Terminal(effects: Option<bool>, success: Option<bool>, definiteRefusal: Option<bool>,
                               response: Status, errorReadable: bool)

  datatype Status = Pass | Failed | RecoveryRequired

  datatype Packet = Answered | Ended(terminal: Terminal) | Broke(error: ServiceError)

  /** What the world does in one run; packets that run out are a lost wire. */
  datatype Environment = Environment(
    setupError: Option<ServiceError>,
    volumeOpens: bool,
    launchError: Option<ServiceError>,
    brokerError: Option<ServiceError>,
    packets: seq<Packet>,
    workerCloses: bool,
    volumeCloses: bool,
    projectionFails: bool,
    receiptFails: bool,
    replyFails: bool)

  datatype Mode = Mode(verifyInstalled: bool, recoverVisibleBound: bool, reviewedReentry: bool)

  datatype Reply = Relayed(status: Status) | Failure(status: Status)

  datatype ChildResult = Answer(reply: Reply) | Raised(error: ServiceError)

  // ----- what happened in a run -----

  /** What the broker loop ends with. */
  function Brokered(packets: seq<Packet>): (r: Packet)
    ensures !r.Answered?
  {
    if packets == [] then Broke(WireLost)
    else if packets[0].Answered? then Brokered(packets[1..])
    else packets[0]
  }

  function Last(env: Environment): (r: Packet)
    ensures !r.Answered?
  {
    if env.launchError.Some? then Broke(env.launchError.value)
    else if env.brokerError.Some? then Broke(env.brokerError.value)
    else Brokered(env.packets)
  }

  /** The worker stage was entered. */
  predicate Begun(env: Environment) {
    env.setupError.None? && env.volumeOpens
  }

  /** A launched worker or an open query volume is left behind. */
  predicate Unresolved(env: Environment) {
    Begun(env) && ((env.launchError.None? && !env.workerCloses) || !env.volumeCloses)
  }

  /** The worker stage ended in a refusal that precedes every effect. */
  predicate DefinitelyRefused(env: Environment) {
    match Last(env)
    case Ended(t) => t.definiteRefusal == Some(true)
    case Broke(e) => Definite(e) || e.PreflightRefused?
  }

  /** A worker ended the wire itself and reported no effects. */
  predicate ReportedNoEffects(env: Environment) {
    Last(env).Ended? && Last(env).terminal.effects == Some(false)
  }

  class BrokerVolumeObserver {
    var attempted: bool
    var closed: bool
    var isOpen: bool

    constructor ()
      ensures isOpen && !attempted && !closed
    {
      isOpen := true;
      attempted := false;
      closed := false;
    }

    ghost predicate Valid()
      reads this
    {
      (closed <==> !isOpen) && (closed ==> attempted)
    }

    /** Tried once; a failed attempt keeps the handle and is never repeated. */
    method Close(succeeds: bool) returns (r: bool)
      requires Valid()
      modifies this
      ensures Valid() && attempted && r == closed
      ensures closed == if old(attempted) then old(closed) else succeeds
    {
      if !attempted {
        attempted := true;
        closed := succeeds;
        if closed {
          isOpen := false;
        }
      }
      r := closed;
    }
  }

  class PublisherServiceRun {
    var effectsMayExist: bool
    var exitCode: int
    var launched: bool
    var workerConfirmed: bool
    var volumeClosed: bool

    constructor ()
      ensures Fresh()
    {
      effectsMayExist := false;
      exitCode := 0;
      launched := false;
      workerConfirmed := false;
      volumeClosed := false;
    }

    ghost predicate Fresh()
      reads this
    {
      !effectsMayExist && exitCode == 0 && !launched && !workerConfirmed && !volumeClosed
    }

    /** What a run leaves in its fields: which closures were confirmed, and whether effects may exist. */
    ghost predicate Settled(env: Environment)
      reads this
    {
      && launched == (Begun(env) && env.launchError.None?)
      && workerConfirmed == (launched && env.workerCloses)
      && volumeClosed == (Begun(env) && env.volumeCloses)
      && effectsMayExist == (Begun(env) && (Unresolved(env) || !ReportedNoEffects(env)))
    }

    /** Launch and broker loop: the terminal packet or the primary exception. */
    method RunWorker(env: Environment) returns (r: Packet)
      requires !launched
      modifies this`launched
      ensures launched == env.launchError.None?
      ensures r == Last(env)
    {
      if env.launchError.Some? {
        return Broke(env.launchError.value);
      }
      launched := true;
      if env.brokerError.Some? {
        return Broke(env.brokerError.value);
      }
      var i := 0;
      while i < |env.packets| && env.packets[i].Answered?
        invariant i <= |env.packets| && Brokered(env.packets) == Brokered(env.packets[i..])
      {
        i := i + 1;
      }
      r := if i < |env.packets| then env.packets[i] else Broke(WireLost);
    }

    /** Worker first, then volume; the volume's destructor runs on every way out. */
    method Dispose(volume: BrokerVolumeObserver, env: Environment) returns (r: Option<ServiceError>)
      requires volume.Valid() && !volume.attempted && !volumeClosed && !workerConfirmed
      modifies this`workerConfirmed, this`volumeClosed, volume
      ensures workerConfirmed == (launched && env.workerCloses) && volumeClosed == env.volumeCloses
      ensures r == if launched && !env.workerCloses then Some(WorkerClosureUnknown)
                   else if !env.volumeCloses then Some(QueryClosureUnknown) else None
    {
      if launched {
        workerConfirmed := env.workerCloses;
        if !workerConfirmed {
          volumeClosed := volume.Close(env.volumeCloses);
          return Some(WorkerClosureUnknown);
        }
      }
      volumeClosed := volume.Close(env.volumeCloses);
      if !volumeClosed {
        return Some(QueryClosureUnknown);
      }
      return None;
    }

    /** Reading the terminal: the only place where the effects flag can go down. */
    method Narrow(t: Terminal) returns (r: ChildResult)
      requires effectsMayExist
      modifies this`effectsMayExist, this`exitCode
      ensures effectsMayExist == (t.effects != Some(false))
      ensures r.Raised? ==> r.error == OtherError
      ensures r.Raised? <==>
              || t.effects.None? || t.success.None?
              || (t.success == Some(false) && (t.definiteRefusal.None? || !t.errorReadable))
      ensures r.Answer? ==>
              r.reply == if t.success == Some(true) then Relayed(t.response)
                         else Failure(if t.definiteRefusal == Some(true) || t.effects == Some(false) then Failed
                                      else RecoveryRequired)
      ensures r.Answer? ==> exitCode == if r.reply.Failure? then SERVICE_SPECIFIC_ERROR else old(exitCode)
    {
      if t.effects.None? {
        return Raised(OtherError);
      }
      effectsMayExist := t.effects.value;
      if t.success.None? {
        return Raised(OtherError);
      }
      if t.success.value {
        return Answer(Relayed(t.response));
      }
      exitCode := SERVICE_SPECIFIC_ERROR;
      if t.definiteRefusal.None? || !t.errorReadable {
        return Raised(OtherError);
      }
      return Answer(Failure(if t.definiteRefusal.value || !effectsMayExist then Failed else RecoveryRequired));
    }

    method ExecuteRegisteredChild(env: Environment) returns (r: ChildResult)
      requires Fresh() && env.setupError.None?
      modifies this
      ensures Settled(env)
      ensures !env.volumeOpens ==> r == Raised(OtherError)
      ensures Unresolved(env) ==> r.Raised? && !Definite(r.error)
      ensures Begun(env) && !Unresolved(env) && Last(env).Broke? ==>
              r.Raised? && (Definite(r.error) <==> DefinitelyRefused(env))
      ensures Begun(env) && !Unresolved(env) && Last(env).Ended? && r.Raised? ==> !Definite(r.error)
      ensures r == Answer(Failure(Failed)) ==> DefinitelyRefused(env) || ReportedNoEffects(env)
      ensures r == Answer(Failure(RecoveryRequired)) ==> !DefinitelyRefused(env) && !ReportedNoEffects(env)
      ensures r.Answer? ==> Last(env).Ended?
      ensures r.Answer? ==> exitCode == if r.reply.Failure? then SERVICE_SPECIFIC_ERROR else 0
    {
      if !env.volumeOpens {
        return Raised(OtherError);
      }
      var volume := new BrokerVolumeObserver();
      effectsMayExist := true;
      var last := RunWorker(env);
      var unconfirmed := Dispose(volume, env);
      if unconfirmed.Some? {
        return Raised(unconfirmed.value);
      }
      match last
      case Ended(t) =>
        r := Narrow(t);
      case Broke(e) =>
        r := Raised(if e.PreflightRefused? then StaleReviewedInstall else e);
    }

    /** The failure classification of the service's outermost handler. */
    function Classify(e: ServiceError, mode: Mode): Status
      reads this
    {
      if Definite(e) then Failed
      else if !mode.verifyInstalled && (mode.recoverVisibleBound || mode.reviewedReentry || effectsMayExist) then
        RecoveryRequired
      else Failed
    }

    /**
      * One run of the service. `replies` are the documents handed to the channel, in order; the
      * client may have seen any of them. Outside verify-only mode no reply of status failed
      * hides an unresolved worker or volume, and a failure document of that status rests on a
      * stage never begun, a definite refusal or a worker's own report of no effects. An
      * unresolved run, and one without terminal or refusal, requires recovery.
      */
    method Serve(env: Environment, mode: Mode) returns (replies: seq<Reply>)
      requires Fresh()
      modifies this
      ensures 1 <= |replies| <= 2 && Settled(env)
      ensures !mode.verifyInstalled ==>
                forall i :: 0 <= i < |replies| && replies[i].status == Failed ==> !Unresolved(env)
      ensures !mode.verifyInstalled ==>
                forall i :: 0 <= i < |replies| && replies[i] == Failure(Failed) ==>
                  !Begun(env) || DefinitelyRefused(env) || ReportedNoEffects(env)
      ensures Unresolved(env) ==>
                replies == [Failure(if mode.verifyInstalled then Failed else RecoveryRequired)]
      ensures Begun(env) && Last(env).Broke? && !DefinitelyRefused(env) && !mode.verifyInstalled ==>
                replies == [Failure(RecoveryRequired)]
      ensures Begun(env) && Last(env).Broke? && DefinitelyRefused(env) && !Unresolved(env) ==> replies == [Failure(Failed)]
      ensures exitCode == if exists i :: 0 <= i < |replies| && replies[i].Failure? then SERVICE_SPECIFIC_ERROR else 0
    {
      if env.setupError.Some? {
        exitCode := SERVICE_SPECIFIC_ERROR;
        replies := [Failure(Classify(env.setupError.value, mode))];
        assert replies[0].Failure?;
        return;
      }
      var child := ExecuteRegisteredChild(env);
      replies := [];
      var error := OtherError;
      if child.Raised? {
        error := child.error;
      } else if !env.projectionFails && !env.receiptFails {
        replies := [child.reply];
        assert replies[0] == child.reply;
        if !env.replyFails {
          return;
        }
      }
      exitCode := SERVICE_SPECIFIC_ERROR;
      replies := replies + [Failure(Classify(error, mode))];
      assert replies[|replies| - 1].Failure?;
    }
  }
}
