/** Pin assignment of src/io.rs: functions, the board, and validating a set of requests against it. The board is a
  table of pins with unique ids of at most four bytes. */
module PinAssignments {
  import opened Bytes

  datatype PinFunctionClass =
    | AnalogInput | DigitalInput | CaptureInput | PwmOutput | Injector | Ignition | LowSideOutput | HighSideOutput
    | Can | Uart | Spi | I2c | Usb | Debug

  datatype EcuFunction =
    | CrankInput | CamInput | MapSensor | TpsSensor | CltSensor | IatSensor | BoostControl | IdleControl
    | Injector1 | Injector2 | Ignition1 | Ignition2

  type PinId = seq<byte>

  function Code(f: EcuFunction): byte {
    match f
    case CrankInput => 0x01 case CamInput => 0x02 case MapSensor => 0x03 case TpsSensor => 0x04
    case CltSensor => 0x05 case IatSensor => 0x06 case BoostControl => 0x10 case IdleControl => 0x11
    case Injector1 => 0x20 case Injector2 => 0x21 case Ignition1 => 0x30 case Ignition2 => 0x31
  }

  function FromCode(b: byte): Option<EcuFunction> {
    if b == 0x01 then Some(CrankInput) else if b == 0x02 then Some(CamInput)
    else if b == 0x03 then Some(MapSensor) else if b == 0x04 then Some(TpsSensor)
    else if b == 0x05 then Some(CltSensor) else if b == 0x06 then Some(IatSensor)
    else if b == 0x10 then Some(BoostControl) else if b == 0x11 then Some(IdleControl)
    else if b == 0x20 then Some(Injector1) else if b == 0x21 then Some(Injector2)
    else if b == 0x30 then Some(Ignition1) else if b == 0x31 then Some(Ignition2)
    else None
  }

  function RequiredClass(f: EcuFunction): PinFunctionClass {
    match f
    case CrankInput | CamInput => CaptureInput
    case MapSensor | TpsSensor | CltSensor | IatSensor => AnalogInput
    case BoostControl | IdleControl => PwmOutput
    case Injector1 | Injector2 => Injector
    case Ignition1 | Ignition2 => Ignition
  }

  /** `fixed_pin_id`: PA0, PA1, PE9, PE11, PF8, PF9. */
  function FixedPin(f: EcuFunction): Option<PinId> {
    match f
    case CrankInput => Some([0x50, 0x41, 0x30])
    case CamInput => Some([0x50, 0x41, 0x31])
    case Injector1 => Some([0x50, 0x45, 0x39])
    case Injector2 => Some([0x50, 0x45, 0x31, 0x31])
    case Ignition1 => Some([0x50, 0x46, 0x38])
    case Ignition2 => Some([0x50, 0x46, 0x39])
    case _ => None
  }

  // ---- the board ----

  datatype PinRoute = PinRoute(functionClass: PinFunctionClass, exclusiveResource: Option<seq<byte>>)

  datatype PinCapability = PinCapability(
    pinId: PinId, pinLabel: seq<byte>, reserved: bool, classes: set<PinFunctionClass>, routes: seq<PinRoute>)

  datatype BoardError = UnknownPin | ReservedPin | UnsupportedFunction

  type Board = seq<PinCapability>

  const MAX_PIN_ID: nat := 4

  ghost predicate WellFormed(board: Board) {
    && (forall i :: 0 <= i < |board| ==> |board[i].pinId| <= MAX_PIN_ID)
    && (forall i, j :: 0 <= i < j < |board| ==> board[i].pinId != board[j].pinId)
  }

  /** The first pin of that id. */
  function FindPin(board: Board, id: PinId): (r: Option<PinCapability>)
    ensures r.Some? ==> r.value in board && r.value.pinId == id
    ensures r.None? ==> forall p :: p in board ==> p.pinId != id
  {
    if board == [] then None
    else if board[0].pinId == id then Some(board[0])
    else FindPin(board[1..], id)
  }

  function RouteFor(routes: seq<PinRoute>, c: PinFunctionClass): Option<PinRoute> {
    if routes == [] then None
    else if routes[0].functionClass == c then Some(routes[0])
    else RouteFor(routes[1..], c)
  }

  function ValidatePin(board: Board, id: PinId, c: PinFunctionClass): Result<PinCapability, BoardError> {
    match FindPin(board, id)
    case None => Err(UnknownPin)
    case Some(pin) =>
      if pin.reserved then Err(ReservedPin)
      else if c !in pin.classes || RouteFor(pin.routes, c).None? then Err(UnsupportedFunction)
      else Ok(pin)
  }

  /** `resource_key` of a pin in the class a function needs. */
  function ResourceOf(board: Board, id: PinId, c: PinFunctionClass): Option<seq<byte>> {
    match FindPin(board, id)
    case None => None
    case Some(pin) =>
      match RouteFor(pin.routes, c) case None => None case Some(route) => route.exclusiveResource
  }

  /** The pin of that id can serve that class: it is not reserved, offers the class, and has a route for it. */
  predicate Serves(pin: PinCapability, c: PinFunctionClass) {
    !pin.reserved && c in pin.classes && exists j :: 0 <= j < |pin.routes| && pin.routes[j].functionClass == c
  }

  lemma {:induction false} RouteMeaning(routes: seq<PinRoute>, c: PinFunctionClass)
    ensures RouteFor(routes, c).Some? <==> exists j :: 0 <= j < |routes| && routes[j].functionClass == c
    ensures RouteFor(routes, c).Some? ==>
              exists j :: 0 <= j < |routes| && routes[j] == RouteFor(routes, c).value && routes[j].functionClass == c
                          && forall i :: 0 <= i < j ==> routes[i].functionClass != c
    decreases |routes|
  {
    if routes == [] {
    } else if routes[0].functionClass == c {
    } else {
      RouteMeaning(routes[1..], c);
      assert forall j :: 1 <= j < |routes| ==> routes[j] == routes[1..][j - 1];
      if RouteFor(routes, c).Some? {
        var j :| 0 <= j < |routes| - 1 && routes[1..][j] == RouteFor(routes[1..], c).value
                 && forall i :: 0 <= i < j ==> routes[1..][i].functionClass != c;
        assert routes[j + 1] == routes[1..][j];
        assert forall i :: 1 <= i < j + 1 ==> routes[i] == routes[1..][i - 1];
      }
    }
  }

  /** The one pin of an id on the board. */
  lemma FoundIsThePin(board: Board, id: PinId, k: nat)
    requires WellFormed(board) && k < |board| && board[k].pinId == id
    ensures FindPin(board, id) == Some(board[k])
  {
    var pin := FindPin(board, id).value;
    var i :| 0 <= i < |board| && board[i] == pin;
    if i < k {
      assert board[i].pinId != board[k].pinId;
    }
    if k < i {
      assert board[k].pinId != board[i].pinId;
    }
  }

  /** How the board answers: exactly for a pin it has, that is not reserved, that offers the class and has a route. */
  lemma ValidatePinExactly(board: Board, id: PinId, c: PinFunctionClass)
    requires WellFormed(board)
    ensures ValidatePin(board, id, c).Ok?
       <==> exists k :: 0 <= k < |board| && board[k].pinId == id && Serves(board[k], c)
    ensures ValidatePin(board, id, c) == Err(UnknownPin) <==> forall k :: 0 <= k < |board| ==> board[k].pinId != id
    ensures ValidatePin(board, id, c) == Err(ReservedPin)
       <==> exists k :: 0 <= k < |board| && board[k].pinId == id && board[k].reserved
  {
    if k :| 0 <= k < |board| && board[k].pinId == id {
      FoundIsThePin(board, id, k);
      RouteMeaning(board[k].routes, c);
      forall i | 0 <= i < |board| && board[i].pinId == id
        ensures i == k
      {
        FoundIsThePin(board, id, i);
      }
    }
  }

  /** The resource a pin takes in a class is that of its first route for it; without a route it takes none. */
  lemma ResourceExactly(board: Board, c: PinFunctionClass, k: nat)
    requires WellFormed(board) && k < |board|
    ensures var routes := board[k].routes; var resource := ResourceOf(board, board[k].pinId, c);
            && (forall j :: 0 <= j < |routes| && routes[j].functionClass == c
                            && (forall i :: 0 <= i < j ==> routes[i].functionClass != c)
                            ==> resource == routes[j].exclusiveResource)
            && ((forall j :: 0 <= j < |routes| ==> routes[j].functionClass != c) ==> resource == None)
  {
    FoundIsThePin(board, board[k].pinId, k);
    var routes := board[k].routes;
    RouteMeaning(routes, c);
    if RouteFor(routes, c).Some? {
      var j :| 0 <= j < |routes| && routes[j] == RouteFor(routes, c).value && routes[j].functionClass == c
               && forall i :: 0 <= i < j ==> routes[i].functionClass != c;
      hide RouteFor, FindPin;
      forall m | 0 <= m < |routes| && routes[m].functionClass == c
                 && (forall i :: 0 <= i < m ==> routes[i].functionClass != c)
        ensures m == j
      {
        assert !(m < j) && !(j < m);
      }
    }
  }

  // ---- requests and their validation ----

  datatype Request = Request(function_: EcuFunction, pinId: PinId)

  datatype Resolved = Resolved(function_: EcuFunction, pinId: PinId, pinLabel: seq<byte>, required: PinFunctionClass)

  datatype AssignmentError =
    | BoardRejects(board: BoardError)
    | InvalidPayload
    | PayloadTooLarge(encodedLen: nat, pageLen: nat)
    | DuplicateFunction(function_: EcuFunction)
    | DuplicatePin(pinId: PinId, existing: EcuFunction, requested: EcuFunction)
    | FixedPinRequired(function_: EcuFunction, expected: PinId, pinId: PinId)
    | ResourceConflict(resource: seq<byte>, existing: EcuFunction, requested: EcuFunction)

  /** The first resolved assignment that satisfies `p`. */
  function Find(resolved: seq<Resolved>, p: Resolved -> bool): (r: Option<Resolved>)
    ensures r.Some? ==> r.value in resolved && p(r.value)
    ensures r.None? ==> forall a :: a in resolved ==> !p(a)
  {
    if resolved == [] then None else if p(resolved[0]) then Some(resolved[0]) else Find(resolved[1..], p)
  }

  function WithFunction(resolved: seq<Resolved>, f: EcuFunction): (r: Option<Resolved>)
    ensures r.Some? ==> r.value in resolved && r.value.function_ == f
    ensures r.None? ==> forall a :: a in resolved ==> a.function_ != f
  {
    Find(resolved, (a: Resolved) => a.function_ == f)
  }

  function WithPin(resolved: seq<Resolved>, id: PinId): (r: Option<Resolved>)
    ensures r.Some? ==> r.value in resolved && r.value.pinId == id
    ensures r.None? ==> forall a :: a in resolved ==> a.pinId != id
  {
    Find(resolved, (a: Resolved) => a.pinId == id)
  }

  function WithResource(board: Board, resolved: seq<Resolved>, resource: Option<seq<byte>>): (r: Option<Resolved>)
    ensures r.Some? ==> r.value in resolved && ResourceOf(board, r.value.pinId, r.value.required) == resource
    ensures r.None? ==> forall a :: a in resolved ==> ResourceOf(board, a.pinId, a.required) != resource
  {
    Find(resolved, (a: Resolved) => ResourceOf(board, a.pinId, a.required) == resource)
  }

  /** One turn of the loop of `validate_assignment_set`. */
  function Check(board: Board, resolved: seq<Resolved>, r: Request): Result<Resolved, AssignmentError> {
    var c := RequiredClass(r.function_);
    if WithFunction(resolved, r.function_).Some? then Err(DuplicateFunction(r.function_))
    else if FixedPin(r.function_).Some? && r.pinId != FixedPin(r.function_).value then
      Err(FixedPinRequired(r.function_, FixedPin(r.function_).value, r.pinId))
    else
      match ValidatePin(board, r.pinId, c)
      case Err(e) => Err(BoardRejects(e))
      case Ok(pin) =>
        var samePin := WithPin(resolved, pin.pinId);
        if samePin.Some? then Err(DuplicatePin(pin.pinId, samePin.value.function_, r.function_))
        else
          var resource := ResourceOf(board, r.pinId, c);
          var sameResource := WithResource(board, resolved, resource);
          if resource.Some? && sameResource.Some?
          then Err(ResourceConflict(resource.value, sameResource.value.function_, r.function_))
          else Ok(Resolved(r.function_, pin.pinId, pin.pinLabel, c))
  }

  function Validate(board: Board, requests: seq<Request>): Result<seq<Resolved>, AssignmentError> {
    if requests == [] then Ok([])
    else
      match Validate(board, requests[..|requests| - 1])
      case Err(e) => Err(e)
      case Ok(resolved) =>
        match Check(board, resolved, requests[|requests| - 1])
        case Err(e) => Err(e)
        case Ok(a) => Ok(resolved + [a])
  }

  lemma {:induction false} ValidatePrefixFails(board: Board, requests: seq<Request>, n: nat)
    requires n <= |requests| && Validate(board, requests[..n]).Err?
    ensures Validate(board, requests) == Validate(board, requests[..n])
    decreases |requests| - n
  {
    hide Check;
    if n == |requests| {
      assert requests[..n] == requests;
    } else {
      assert requests[..n + 1][..n] == requests[..n];
      ValidatePrefixFails(board, requests, n + 1);
    }
  }

  /** `validate_assignment_set`: grows the resolved list until the first request that conflicts. */
  method ValidateAssignmentSet(board: Board, requests: seq<Request>) returns (r: Result<seq<Resolved>, AssignmentError>)
    ensures r == Validate(board, requests)
  {
    hide Check;
    var resolved: seq<Resolved> := [];
    for i := 0 to |requests|
      invariant Validate(board, requests[..i]) == Ok(resolved)
    {
      assert requests[..i + 1][..i] == requests[..i];
      var a := Check(board, resolved, requests[i]);
      if a.Err? {
        ValidatePrefixFails(board, requests, i + 1);
        return Err(a.error);
      }
      resolved := resolved + [a.value];
    }
    assert requests[..|requests|] == requests;
    r := Ok(resolved);
  }

  // ---- what validation means ----

  /** A request the board can serve on its own. */
  predicate Admissible(board: Board, r: Request) {
    && (FixedPin(r.function_).Some? ==> r.pinId == FixedPin(r.function_).value)
    && ValidatePin(board, r.pinId, RequiredClass(r.function_)).Ok?
  }

  /** Two requests that cannot stand together. */
  predicate Conflict(board: Board, r: Request, s: Request) {
    || r.function_ == s.function_
    || r.pinId == s.pinId
    || (&& ResourceOf(board, r.pinId, RequiredClass(r.function_)).Some?
        && ResourceOf(board, r.pinId, RequiredClass(r.function_))
           == ResourceOf(board, s.pinId, RequiredClass(s.function_)))
  }

  ghost predicate ConflictFree(board: Board, requests: seq<Request>) {
    && (forall i :: 0 <= i < |requests| ==> Admissible(board, requests[i]))
    && (forall i, j :: 0 <= i < j < |requests| ==> !Conflict(board, requests[i], requests[j]))
  }

  function ResolvedFrom(board: Board, r: Request): Resolved {
    Resolved(r.function_, r.pinId,
             match FindPin(board, r.pinId) case Some(pin) => pin.pinLabel case None => [],
             RequiredClass(r.function_))
  }

  predicate Resolves(board: Board, requests: seq<Request>, resolved: seq<Resolved>) {
    |resolved| == |requests| && forall i :: 0 <= i < |requests| ==> resolved[i] == ResolvedFrom(board, requests[i])
  }

  /** One turn succeeds exactly when the request is admissible and conflicts with none before it. */
  lemma CheckMeaning(board: Board, requests: seq<Request>, resolved: seq<Resolved>, r: Request)
    requires Resolves(board, requests, resolved)
    ensures Check(board, resolved, r).Ok? <==>
              Admissible(board, r) && forall i :: 0 <= i < |requests| ==> !Conflict(board, requests[i], r)
    ensures Check(board, resolved, r).Ok? ==> Check(board, resolved, r).value == ResolvedFrom(board, r)
  {
    hide RouteFor;
    if Check(board, resolved, r).Ok? {
      forall i | 0 <= i < |requests|
        ensures !Conflict(board, requests[i], r)
      {
        assert resolved[i] in resolved;
      }
    } else if Admissible(board, r) {
      var c := RequiredClass(r.function_);
      var resource := ResourceOf(board, r.pinId, c);
      var a := if WithFunction(resolved, r.function_).Some? then WithFunction(resolved, r.function_).value
               else if WithPin(resolved, r.pinId).Some? then WithPin(resolved, r.pinId).value
               else WithResource(board, resolved, resource).value;
      var i :| 0 <= i < |resolved| && resolved[i] == a;
      assert Conflict(board, requests[i], r);
    }
  }

  /** Validation accepts exactly the conflict-free sets of admissible requests, and resolves them in order. */
  lemma {:induction false} ValidateMeaning(board: Board, requests: seq<Request>)
    ensures Validate(board, requests).Ok? <==> ConflictFree(board, requests)
    ensures Validate(board, requests).Ok? ==> Resolves(board, requests, Validate(board, requests).value)
    decreases |requests|
  {
    hide Check, Admissible, Conflict, ResolvedFrom;
    if requests == [] {
    } else {
      var front, last := requests[..|requests| - 1], requests[|requests| - 1];
      ValidateMeaning(board, front);
      if Validate(board, front).Ok? {
        CheckMeaning(board, front, Validate(board, front).value, last);
        assert forall i :: 0 <= i < |front| ==> requests[i] == front[i];
      }
    }
  }

  function RequestOf(a: Resolved): Request {
    Request(a.function_, a.pinId)
  }

  function RequestsOf(resolved: seq<Resolved>): (s: seq<Request>)
    ensures |s| == |resolved| && forall i :: 0 <= i < |s| ==> s[i] == RequestOf(resolved[i])
  {
    seq(|resolved|, i requires 0 <= i < |resolved| => RequestOf(resolved[i]))
  }

  /** A set the runtime may hold: what validation makes of some requests. */
  predicate IsValidated(board: Board, resolved: seq<Resolved>) {
    Validate(board, RequestsOf(resolved)) == Ok(resolved)
  }

  /** Validating again what validation returned changes nothing. */
  lemma ValidateIsIdempotent(board: Board, requests: seq<Request>)
    requires Validate(board, requests).Ok?
    ensures RequestsOf(Validate(board, requests).value) == requests
    ensures IsValidated(board, Validate(board, requests).value)
  {
    hide Validate;
    ValidateMeaning(board, requests);
  }

  /** What a validated set promises the rest of the firmware. */
  lemma ValidatedSetIsSafe(board: Board, resolved: seq<Resolved>)
    requires IsValidated(board, resolved)
    ensures forall i :: 0 <= i < |resolved| ==>
              && (FixedPin(resolved[i].function_).Some? ==> resolved[i].pinId == FixedPin(resolved[i].function_).value)
              && ValidatePin(board, resolved[i].pinId, resolved[i].required).Ok?
              && resolved[i].required == RequiredClass(resolved[i].function_)
    ensures forall i, j :: 0 <= i < j < |resolved| ==>
              && resolved[i].function_ != resolved[j].function_
              && resolved[i].pinId != resolved[j].pinId
              && (ResourceOf(board, resolved[i].pinId, resolved[i].required).Some? ==>
                    ResourceOf(board, resolved[i].pinId, resolved[i].required)
                    != ResourceOf(board, resolved[j].pinId, resolved[j].required))
  {
    hide Validate, ValidatePin, ResourceOf, FixedPin;
    ValidateMeaning(board, RequestsOf(resolved));
    var requests := RequestsOf(resolved);
    forall i | 0 <= i < |resolved|
      ensures Admissible(board, requests[i]) && resolved[i] == ResolvedFrom(board, requests[i])
    {
    }
    forall i, j | 0 <= i < j < |resolved|
      ensures !Conflict(board, requests[i], requests[j])
    {
    }
  }

  /** How a request is refused that follows the conflict-free `requests`: what is tested, in this order. */
  lemma CheckRefusedExactly(board: Board, requests: seq<Request>, resolved: seq<Resolved>, r: Request)
    requires Resolves(board, requests, resolved)
    ensures var c := RequiredClass(r.function_);
            var e := Check(board, resolved, r);
            var twice := exists i :: 0 <= i < |requests| && requests[i].function_ == r.function_;
            var misplaced := FixedPin(r.function_).Some? && r.pinId != FixedPin(r.function_).value;
            var taken := exists i :: 0 <= i < |requests| && requests[i].pinId == r.pinId;
            && (e.Err? && e.error.DuplicateFunction? <==> twice)
            && (e.Err? && e.error.FixedPinRequired? <==> !twice && misplaced)
            && (e.Err? && e.error.BoardRejects? <==> !twice && !misplaced && ValidatePin(board, r.pinId, c).Err?)
            && (e.Err? && e.error.BoardRejects? ==> e.error.board == ValidatePin(board, r.pinId, c).error)
            && (e.Err? && e.error.DuplicatePin? <==>
                  !twice && !misplaced && ValidatePin(board, r.pinId, c).Ok? && taken)
            && (e.Err? ==> !e.error.InvalidPayload? && !e.error.PayloadTooLarge?)
  {
    hide RouteFor, ResourceOf, WithFunction, WithPin, WithResource, FindPin;
    FoundTogether(board, requests, resolved, r);
    if ValidatePin(board, r.pinId, RequiredClass(r.function_)).Ok? {
      ValidatedPinIs(board, r.pinId, RequiredClass(r.function_));
    }
  }

  lemma ValidatedPinIs(board: Board, id: PinId, c: PinFunctionClass)
    requires ValidatePin(board, id, c).Ok?
    ensures ValidatePin(board, id, c).value.pinId == id
  {
  }

  lemma FoundTogether(board: Board, requests: seq<Request>, resolved: seq<Resolved>, r: Request)
    requires Resolves(board, requests, resolved)
    ensures WithFunction(resolved, r.function_).Some?
       <==> exists i :: 0 <= i < |requests| && requests[i].function_ == r.function_
    ensures WithPin(resolved, r.pinId).Some? <==> exists i :: 0 <= i < |requests| && requests[i].pinId == r.pinId
  {
    hide WithFunction, WithPin;
    if i :| 0 <= i < |requests| && requests[i].function_ == r.function_ {
      assert resolved[i] in resolved && resolved[i].function_ == r.function_;
    }
    if i :| 0 <= i < |requests| && requests[i].pinId == r.pinId {
      assert resolved[i] in resolved && resolved[i].pinId == r.pinId;
    }
    if WithFunction(resolved, r.function_).Some? {
      var i :| 0 <= i < |resolved| && resolved[i] == WithFunction(resolved, r.function_).value;
      assert requests[i].function_ == r.function_;
    }
    if WithPin(resolved, r.pinId).Some? {
      var i :| 0 <= i < |resolved| && resolved[i] == WithPin(resolved, r.pinId).value;
      assert requests[i].pinId == r.pinId;
    }
  }
}
