/** Overriding pin assignments and the codec of the pin-assignment page: src/io.rs. */
module PinPages {
  import opened Bytes
  import opened PinAssignments

  const FORMAT_VERSION: byte := 1
  const PAGE_MAGIC: seq<byte> := [0x53, 0x54, 0x49, 0x4F]
  const PAGE_MAGIC_LEGACY: seq<byte> := [0x53, 0x54, 0x50, 0x33]
  const FUNCTIONS: nat := 12
  /** The longest page a validated set can need. */
  const MAX_ENCODED: nat := 6 + FUNCTIONS * (2 + MAX_PIN_ID)

  // ---- overrides ----

  function IndexOf(requests: seq<Request>, f: EcuFunction): (r: Option<nat>)
    ensures r.Some? ==> r.value < |requests| && requests[r.value].function_ == f
    ensures r.None? ==> forall i :: 0 <= i < |requests| ==> requests[i].function_ != f
  {
    if requests == [] then None
    else if requests[0].function_ == f then Some(0)
    else match IndexOf(requests[1..], f) case None => None case Some(i) => Some(i + 1)
  }

  function Overridden(requests: seq<Request>, o: Request): seq<Request> {
    match IndexOf(requests, o.function_)
    case Some(i) => requests[i := o]
    case None => requests + [o]
  }

  function Merged(base: seq<Request>, overrides: seq<Request>): seq<Request> {
    if overrides == [] then base
    else Overridden(Merged(base, overrides[..|overrides| - 1]), overrides[|overrides| - 1])
  }

  /** `apply_assignment_overrides`: the base edited in place override by override, then validated as a whole. */
  method ApplyOverrides(board: Board, base: seq<Resolved>, overrides: seq<Request>)
    returns (r: Result<seq<Resolved>, AssignmentError>)
    ensures r == Validate(board, Merged(RequestsOf(base), overrides))
  {
    hide Validate;
    var merged := RequestsOf(base);
    for n := 0 to |overrides|
      invariant merged == Merged(RequestsOf(base), overrides[..n])
    {
      assert overrides[..n + 1][..n] == overrides[..n];
      var o := overrides[n];
      match IndexOf(merged, o.function_) {
        case Some(i) => merged := merged[i := o];
        case None => merged := merged + [o];
      }
    }
    assert overrides[..|overrides|] == overrides;
    r := ValidateAssignmentSet(board, merged);
  }

  /** The pin a list of requests gives a function. */
  function PinFor(requests: seq<Request>, f: EcuFunction): Option<PinId> {
    match IndexOf(requests, f) case None => None case Some(i) => Some(requests[i].pinId)
  }

  /** The last request for a function wins. */
  function LastFor(requests: seq<Request>, f: EcuFunction): Option<PinId> {
    if requests == [] then None
    else if requests[|requests| - 1].function_ == f then Some(requests[|requests| - 1].pinId)
    else LastFor(requests[..|requests| - 1], f)
  }

  ghost predicate DistinctFunctions(requests: seq<Request>) {
    forall i, j :: 0 <= i < j < |requests| ==> requests[i].function_ != requests[j].function_
  }

  lemma IndexIs(requests: seq<Request>, i: nat)
    requires DistinctFunctions(requests) && i < |requests|
    ensures IndexOf(requests, requests[i].function_) == Some(i)
  {
  }

  lemma OverriddenKeepsFunctions(requests: seq<Request>, o: Request)
    requires DistinctFunctions(requests)
    ensures var m := Overridden(requests, o);
            && DistinctFunctions(m)
            && |requests| <= |m| <= |requests| + 1
            && forall i :: 0 <= i < |requests| ==> m[i].function_ == requests[i].function_
  {
  }

  lemma OverriddenLookup(requests: seq<Request>, o: Request, f: EcuFunction)
    requires DistinctFunctions(requests)
    ensures PinFor(Overridden(requests, o), f) == (if o.function_ == f then Some(o.pinId) else PinFor(requests, f))
  {
    hide DistinctFunctions, IndexOf;
    OverriddenKeepsFunctions(requests, o);
    var m := Overridden(requests, o);
    if IndexOf(requests, f).Some? {
      IndexIs(m, IndexOf(requests, f).value);
    } else if o.function_ == f {
      IndexIs(m, |requests|);
    }
  }

  /** Overrides keep the order of the base, leave every untouched function on its pin, and the last one for a
    function wins. */
  lemma {:induction false} OverridesWin(base: seq<Request>, overrides: seq<Request>, f: EcuFunction)
    requires DistinctFunctions(base)
    ensures var m := Merged(base, overrides);
            && DistinctFunctions(m)
            && PinFor(m, f) == (if LastFor(overrides, f).Some? then LastFor(overrides, f) else PinFor(base, f))
            && |base| <= |m|
            && forall i :: 0 <= i < |base| ==> m[i].function_ == base[i].function_
    decreases |overrides|
  {
    if overrides == [] {
    } else {
      OverridesWin(base, overrides[..|overrides| - 1], f);
      OverriddenKeepsFunctions(Merged(base, overrides[..|overrides| - 1]), overrides[|overrides| - 1]);
      OverriddenLookup(Merged(base, overrides[..|overrides| - 1]), overrides[|overrides| - 1], f);
    }
  }

  // ---- encoding ----

  function Entry(a: Resolved): (s: seq<byte>)
    ensures |s| == 2 + |a.pinId|
  {
    [Code(a.function_), ByteOf(|a.pinId| % 256)] + a.pinId
  }

  function Entries(assignments: seq<Resolved>): seq<byte> {
    if assignments == [] then [] else Entry(assignments[0]) + Entries(assignments[1..])
  }

  function Encoded(assignments: seq<Resolved>): (s: seq<byte>)
    ensures |s| == 6 + |Entries(assignments)|
  {
    PAGE_MAGIC + [FORMAT_VERSION, ByteOf(|assignments| % 256)] + Entries(assignments)
  }

  function Zeros(n: nat): (s: seq<byte>)
    ensures |s| == n && forall i :: 0 <= i < n ==> s[i] == 0
  {
    seq(n, i => 0)
  }

  function Serialized(assignments: seq<Resolved>, pageLen: nat): Result<seq<byte>, AssignmentError> {
    var e := Encoded(assignments);
    if |e| > pageLen then Err(PayloadTooLarge(|e|, pageLen)) else Ok(e + Zeros(pageLen - |e|))
  }

  lemma {:induction false} EntriesAppend(s: seq<Resolved>, a: Resolved)
    ensures Entries(s + [a]) == Entries(s) + Entry(a)
    decreases |s|
  {
    hide Entry;
    if s == [] {
      assert [a][1..] == [];
    } else {
      assert (s + [a])[1..] == s[1..] + [a];
      EntriesAppend(s[1..], a);
    }
  }

  /** `serialize_assignments_to_page`. */
  method SerializeToPage(assignments: seq<Resolved>, pageLen: nat) returns (r: Result<seq<byte>, AssignmentError>)
    ensures r == Serialized(assignments, pageLen)
  {
    hide Code, Entry;
    var encoded := PAGE_MAGIC;
    encoded := encoded + [FORMAT_VERSION];
    encoded := encoded + [ByteOf(|assignments| % 256)];
    ghost var head := encoded;
    assert head == PAGE_MAGIC + [FORMAT_VERSION, ByteOf(|assignments| % 256)];
    for i := 0 to |assignments|
      invariant encoded == head + Entries(assignments[..i])
    {
      var a := assignments[i];
      assert assignments[..i + 1] == assignments[..i] + [a];
      EntriesAppend(assignments[..i], a);
      EntryParts(a);
      encoded := encoded + [Code(a.function_)];
      encoded := encoded + [ByteOf(|a.pinId| % 256)];
      encoded := encoded + a.pinId;
    }
    assert assignments[..|assignments|] == assignments;
    if |encoded| > pageLen {
      return Err(PayloadTooLarge(|encoded|, pageLen));
    }
    r := Ok(encoded + Zeros(pageLen - |encoded|));
  }

  lemma EntryParts(a: Resolved)
    ensures Entry(a) == [Code(a.function_)] + [ByteOf(|a.pinId| % 256)] + a.pinId
  {
  }

  // ---- decoding ----

  /** `count` entries from `offset` on, and where they end. */
  function ParseEntries(payload: seq<byte>, offset: nat, count: nat): Option<(seq<Request>, nat)>
    decreases count
  {
    if count == 0 then Some(([], offset))
    else if offset + 1 >= |payload| then None
    else
      var end := offset + 2 + Val(payload[offset + 1]);
      if |payload| < end || FromCode(payload[offset]).None? then None
      else
        match ParseEntries(payload, end, count - 1)
        case None => None
        case Some((rest, stop)) =>
          Some(([Request(FromCode(payload[offset]).value, payload[offset + 2..end])] + rest, stop))
  }

  predicate AllZeroFrom(payload: seq<byte>, offset: nat) {
    forall i :: offset <= i < |payload| ==> payload[i] == 0
  }

  function Deserialized(board: Board, payload: seq<byte>): Result<seq<Resolved>, AssignmentError> {
    if |payload| < 6 then Err(InvalidPayload)
    else if payload[..4] != PAGE_MAGIC && payload[..4] != PAGE_MAGIC_LEGACY then Err(InvalidPayload)
    else if payload[4] != FORMAT_VERSION then Err(InvalidPayload)
    else
      match ParseEntries(payload, 6, Val(payload[5]))
      case None => Err(InvalidPayload)
      case Some((requests, stop)) =>
        if !AllZeroFrom(payload, stop) then Err(InvalidPayload) else Validate(board, requests)
  }

  /** `deserialize_assignments_from_page`: the offset moves through the entries, whose bytes must be followed
    by zeros only. */
  method DeserializeFromPage(board: Board, payload: seq<byte>) returns (r: Result<seq<Resolved>, AssignmentError>)
    ensures r == Deserialized(board, payload)
  {
    hide Validate, FromCode;
    if |payload| < 6 {
      return Err(InvalidPayload);
    }
    if payload[..4] != PAGE_MAGIC && payload[..4] != PAGE_MAGIC_LEGACY {
      return Err(InvalidPayload);
    }
    if payload[4] != FORMAT_VERSION {
      return Err(InvalidPayload);
    }
    var count := Val(payload[5]);
    var offset := 6;
    var requests: seq<Request> := [];
    ContinuedFromNothing(ParseEntries(payload, 6, count));
    for i := 0 to count
      invariant ParseEntries(payload, 6, count) == Continued(requests, ParseEntries(payload, offset, count - i))
    {
      if offset >= |payload| {
        return Err(InvalidPayload);
      }
      var code := payload[offset];
      if offset + 1 >= |payload| {
        return Err(InvalidPayload);
      }
      var end := offset + 2 + Val(payload[offset + 1]);
      if |payload| < end {
        return Err(InvalidPayload);
      }
      var pinId := payload[offset + 2..end];
      var f := FromCode(code);
      if f.None? {
        return Err(InvalidPayload);
      }
      ContinuedStep(requests, Request(f.value, pinId), ParseEntries(payload, end, count - i - 1));
      offset := end;
      requests := requests + [Request(f.value, pinId)];
    }
    assert requests + [] == requests;
    if !AllZeroFrom(payload, offset) {
      return Err(InvalidPayload);
    }
    r := ValidateAssignmentSet(board, requests);
  }

  ghost function Continued(done: seq<Request>, r: Option<(seq<Request>, nat)>): Option<(seq<Request>, nat)> {
    match r case None => None case Some((rest, stop)) => Some((done + rest, stop))
  }

  lemma ContinuedFromNothing(r: Option<(seq<Request>, nat)>)
    ensures Continued([], r) == r
  {
    if r.Some? {
      assert [] + r.value.0 == r.value.0;
    }
  }

  lemma ContinuedStep(done: seq<Request>, a: Request, r: Option<(seq<Request>, nat)>)
    ensures Continued(done, Continued([a], r)) == Continued(done + [a], r)
  {
    if r.Some? {
      assert done + ([a] + r.value.0) == (done + [a]) + r.value.0;
    }
  }

  // ---- the round trip ----

  lemma FromCodeOfCode(f: EcuFunction)
    ensures FromCode(Code(f)) == Some(f)
  {
  }

  predicate ShortIds(assignments: seq<Resolved>) {
    forall i :: 0 <= i < |assignments| ==> |assignments[i].pinId| <= MAX_PIN_ID
  }

  lemma {:induction false} ParseEncodedEntries(
      payload: seq<byte>, head: seq<byte>, assignments: seq<Resolved>, tail: seq<byte>)
    requires payload == head + Entries(assignments) + tail && ShortIds(assignments)
    ensures ParseEntries(payload, |head|, |assignments|)
         == Some((RequestsOf(assignments), |head| + |Entries(assignments)|))
    decreases |assignments|
  {
    hide Entry, Val, Code, FromCode, ParseEntries;
    if assignments == [] {
      assert ParseEntries(payload, |head|, 0) == Some(([], |head|)) by { NoEntries(payload, |head|); }
    } else {
      var a, rest := assignments[0], assignments[1..];
      Regrouped(payload, head, a, rest, tail);
      ParseEncodedEntries(payload, head + Entry(a), rest, tail);
      EntryAt(payload, head, a, Entries(rest) + tail);
      ParseOne(payload, |head|, RequestOf(a), |assignments|);
      assert RequestsOf(assignments) == [RequestOf(a)] + RequestsOf(rest);
    }
  }

  lemma NoEntries(payload: seq<byte>, offset: nat)
    ensures ParseEntries(payload, offset, 0) == Some(([], offset))
  {
  }

  lemma Regrouped(payload: seq<byte>, head: seq<byte>, a: Resolved, rest: seq<Resolved>, tail: seq<byte>)
    requires payload == head + (Entry(a) + Entries(rest)) + tail
    ensures payload == (head + Entry(a)) + Entries(rest) + tail
    ensures payload == head + Entry(a) + (Entries(rest) + tail)
  {
    hide Entry, Entries;
  }

  lemma ParseOne(payload: seq<byte>, offset: nat, a: Request, count: nat)
    requires count > 0 && |payload| >= offset + 2 + |a.pinId|
    requires payload[offset] == Code(a.function_) && Val(payload[offset + 1]) == |a.pinId|
    requires payload[offset + 2..offset + 2 + |a.pinId|] == a.pinId
    ensures ParseEntries(payload, offset, count)
         == Continued([a], ParseEntries(payload, offset + 2 + |a.pinId|, count - 1))
  {
    hide FromCode, Code, Val;
    FromCodeOfCode(a.function_);
  }

  lemma EntryAt(payload: seq<byte>, head: seq<byte>, a: Resolved, tail: seq<byte>)
    requires payload == head + Entry(a) + tail && |a.pinId| <= MAX_PIN_ID
    ensures payload[|head|] == Code(a.function_)
    ensures Val(payload[|head| + 1]) == |a.pinId|
    ensures payload[|head| + 2..|head| + 2 + |a.pinId|] == a.pinId
  {
    hide Code;
    ValOfByte(|a.pinId|);
    var e := Entry(a);
    assert payload[|head|] == e[0] && payload[|head| + 1] == e[1];
  }

  function Rank(f: EcuFunction): nat {
    match f
    case CrankInput => 0 case CamInput => 1 case MapSensor => 2 case TpsSensor => 3
    case CltSensor => 4 case IatSensor => 5 case BoostControl => 6 case IdleControl => 7
    case Injector1 => 8 case Injector2 => 9 case Ignition1 => 10 case Ignition2 => 11
  }

  lemma {:induction false} Pigeonhole(s: seq<nat>, n: nat)
    requires forall i :: 0 <= i < |s| ==> s[i] < n
    requires forall i, j :: 0 <= i < j < |s| ==> s[i] != s[j]
    ensures |s| <= n
    decreases n
  {
    assert |s| > 0 ==> s[0] < n;
    if n == 0 {
    } else {
      if i :| 0 <= i < |s| && s[i] == n - 1 {
        Pigeonhole(s[..i] + s[i + 1..], n - 1);
      } else {
        Pigeonhole(s, n - 1);
      }
    }
  }

  lemma RankInjective(f: EcuFunction, g: EcuFunction)
    requires Rank(f) == Rank(g)
    ensures f == g
  {
  }

  lemma AtMostTwelve(requests: seq<Request>)
    requires DistinctFunctions(requests)
    ensures |requests| <= FUNCTIONS
  {
    hide Rank;
    var ranks: seq<nat> := seq(|requests|, i requires 0 <= i < |requests| => Rank(requests[i].function_));
    forall i, j | 0 <= i < j < |ranks|
      ensures ranks[i] != ranks[j]
    {
      if ranks[i] == ranks[j] {
        RankInjective(requests[i].function_, requests[j].function_);
      }
    }
    forall i | 0 <= i < |ranks|
      ensures ranks[i] < FUNCTIONS
    {
      RankBelow(requests[i].function_);
    }
    Pigeonhole(ranks, FUNCTIONS);
  }

  lemma RankBelow(f: EcuFunction)
    ensures Rank(f) < FUNCTIONS
  {
  }

  lemma {:induction false} EntriesSize(assignments: seq<Resolved>)
    requires ShortIds(assignments)
    ensures |Entries(assignments)| <= (2 + MAX_PIN_ID) * |assignments|
    decreases |assignments|
  {
    if assignments == [] {
    } else {
      EntriesSize(assignments[1..]);
    }
  }

  lemma ValidatedFits(board: Board, resolved: seq<Resolved>)
    requires WellFormed(board) && IsValidated(board, resolved)
    ensures ShortIds(resolved) && DistinctFunctions(RequestsOf(resolved))
    ensures |resolved| <= FUNCTIONS && |Encoded(resolved)| <= MAX_ENCODED
  {
    hide Validate, ResourceOf, FixedPin, RouteFor;
    ValidatedSetIsSafe(board, resolved);
    forall i | 0 <= i < |resolved|
      ensures |resolved[i].pinId| <= MAX_PIN_ID
    {
      var pin := FindPin(board, resolved[i].pinId).value;
      var k :| 0 <= k < |board| && board[k] == pin;
    }
    AtMostTwelve(RequestsOf(resolved));
    EntriesSize(resolved);
  }

  /** Every set the runtime may hold serializes without overflow into any page long enough for twelve functions,
    and is read back as the same list in the same order. */
  lemma PageRoundTrip(board: Board, resolved: seq<Resolved>, pageLen: nat)
    requires WellFormed(board) && IsValidated(board, resolved) && pageLen >= MAX_ENCODED
    ensures Serialized(resolved, pageLen).Ok?
    ensures |Serialized(resolved, pageLen).value| == pageLen
    ensures Deserialized(board, Serialized(resolved, pageLen).value) == Ok(resolved)
  {
    hide Validate, ParseEntries, Entries, RequestsOf;
    ValidatedFits(board, resolved);
    var e := Encoded(resolved);
    var zeros := Zeros(pageLen - |e|);
    var head := PAGE_MAGIC + [FORMAT_VERSION, ByteOf(|resolved| % 256)];
    var page := head + Entries(resolved) + zeros;
    ParseEncodedEntries(page, head, resolved, zeros);
    ValOfByte(|resolved|);
    assert page[..4] == PAGE_MAGIC;
    assert page[4] == FORMAT_VERSION && page[5] == ByteOf(|resolved|);
    assert AllZeroFrom(page, |e|);
  }

  lemma CodeOfFromCode(b: byte)
    requires FromCode(b).Some?
    ensures Code(FromCode(b).value) == b
  {
  }

  lemma EntryFrom(payload: seq<byte>, offset: nat, end: nat, a: Resolved)
    requires offset + 2 <= end <= |payload| && end == offset + 2 + Val(payload[offset + 1])
    requires FromCode(payload[offset]) == Some(a.function_) && payload[offset + 2..end] == a.pinId
    ensures payload[offset..end] == Entry(a)
  {
    CodeOfFromCode(payload[offset]);
    hide FromCode, Code;
    ByteOfVal(payload[offset + 1]);
    assert payload[offset..end] == [payload[offset], payload[offset + 1]] + payload[offset + 2..end];
  }

  lemma RequestsTail(resolved: seq<Resolved>, first: Request, rest: seq<Request>)
    requires RequestsOf(resolved) == [first] + rest
    ensures |resolved| > 0 && RequestOf(resolved[0]) == first && RequestsOf(resolved[1..]) == rest
  {
    assert |resolved| == 1 + |rest|;
    assert RequestOf(resolved[0]) == RequestsOf(resolved)[0];
    assert forall i :: 0 <= i < |rest| ==> RequestsOf(resolved[1..])[i] == ([first] + rest)[i + 1];
  }

  lemma {:induction false} EntriesOfParsed(
      payload: seq<byte>, offset: nat, count: nat, resolved: seq<Resolved>, stop: nat)
    requires offset <= |payload|
    requires ParseEntries(payload, offset, count) == Some((RequestsOf(resolved), stop))
    ensures offset <= stop <= |payload| && payload[offset..stop] == Entries(resolved) && |resolved| == count
    decreases count
  {
    hide FromCode, Code, Entry, Val, RequestsOf;
    if count == 0 {
      assert |RequestsOf(resolved)| == 0;
    } else {
      var end := offset + 2 + Val(payload[offset + 1]);
      var first := Request(FromCode(payload[offset]).value, payload[offset + 2..end]);
      RequestsTail(resolved, first, ParseEntries(payload, end, count - 1).value.0);
      EntriesOfParsed(payload, end, count - 1, resolved[1..], stop);
      EntryFrom(payload, offset, end, resolved[0]);
      Joined(payload, offset, end, stop);
    }
  }

  lemma Joined(s: seq<byte>, i: nat, j: nat, k: nat)
    requires i <= j <= k <= |s|
    ensures s[i..j] + s[j..k] == s[i..k]
  {
  }

  /** Serializing what a page decodes to reproduces that page, under the current magic. */
  lemma SerializeDecoded(board: Board, page: seq<byte>)
    requires Deserialized(board, page).Ok?
    ensures Serialized(Deserialized(board, page).value, |page|) == Ok(PAGE_MAGIC + page[4..])
  {
    hide Validate, ParseEntries, Entries, RequestsOf;
    var resolved := Deserialized(board, page).value;
    var (requests, stop) := ParseEntries(page, 6, Val(page[5])).value;
    ValidateIsIdempotent(board, requests);
    EntriesOfParsed(page, 6, Val(page[5]), resolved, stop);
    ByteOfVal(page[5]);
    assert Val(page[5]) == |resolved| && |resolved| % 256 == |resolved|;
    assert page[stop..] == Zeros(|page| - stop);
    assert page[4..] == [FORMAT_VERSION, ByteOf(|resolved| % 256)] + page[6..stop] + page[stop..];
    assert Encoded(resolved) == PAGE_MAGIC + [FORMAT_VERSION, ByteOf(|resolved| % 256)] + page[6..stop];
    assert PAGE_MAGIC + page[4..] == Encoded(resolved) + Zeros(|page| - stop);
  }

  /** The old magic reads the same. */
  lemma LegacyMagicReadsTheSame(board: Board, page: seq<byte>)
    requires |page| >= 6 && page[..4] == PAGE_MAGIC
    ensures Deserialized(board, PAGE_MAGIC_LEGACY + page[4..]) == Deserialized(board, page)
  {
    hide Validate;
    var legacy := PAGE_MAGIC_LEGACY + page[4..];
    SameEntries(legacy, page, 6, Val(page[5]));
  }

  lemma {:induction false} SameEntries(a: seq<byte>, b: seq<byte>, offset: nat, count: nat)
    requires |a| == |b| && offset >= 4 && (forall i :: 4 <= i < |a| ==> a[i] == b[i])
    ensures ParseEntries(a, offset, count) == ParseEntries(b, offset, count)
    ensures ParseEntries(a, offset, count).Some? ==> ParseEntries(a, offset, count).value.1 >= offset
    decreases count
  {
    hide FromCode;
    if count > 0 && offset + 1 < |a| {
      var end := offset + 2 + Val(a[offset + 1]);
      if end <= |a| {
        assert a[offset + 2..end] == b[offset + 2..end];
        SameEntries(a, b, end, count - 1);
      }
    }
  }

  /** What is read from a page is a set the runtime may hold. */
  lemma DeserializedIsValidated(board: Board, page: seq<byte>)
    requires Deserialized(board, page).Ok?
    ensures IsValidated(board, Deserialized(board, page).value)
  {
    hide Validate;
    ValidateIsIdempotent(board, ParseEntries(page, 6, Val(page[5])).value.0);
  }

  // ---- which bytes are a page ----

  /** These bytes list the requests one after the other, each as a code, a length and a pin, and then only zeros. */
  ghost predicate Lists(s: seq<byte>, requests: seq<Request>) {
    if requests == [] then forall i :: 0 <= i < |s| ==> s[i] == 0
    else
      var n := |requests[0].pinId|;
      && |s| >= 2 + n
      && s[0] == Code(requests[0].function_) && Val(s[1]) == n && s[2..2 + n] == requests[0].pinId
      && Lists(s[2 + n..], requests[1..])
  }

  /** A page of these requests, in either magic. */
  ghost predicate IsPageOf(page: seq<byte>, requests: seq<Request>) {
    && |page| >= 6
    && (page[..4] == [0x53, 0x54, 0x49, 0x4F] || page[..4] == [0x53, 0x54, 0x50, 0x33])
    && page[4] == 1
    && Val(page[5]) == |requests|
    && Lists(page[6..], requests)
  }

  lemma {:induction false} ListedIsParsed(payload: seq<byte>, offset: nat, requests: seq<Request>)
    requires offset <= |payload| && Lists(payload[offset..], requests)
    ensures var r := ParseEntries(payload, offset, |requests|);
            r.Some? && r.value.0 == requests && AllZeroFrom(payload, r.value.1)
    decreases |requests|
  {
    hide Code, FromCode, Val, ParseEntries, Lists;
    var s := payload[offset..];
    if requests == [] {
      NoEntries(payload, offset);
      NothingListed(s);
      assert forall i :: offset <= i < |payload| ==> payload[i] == s[i - offset];
    } else {
      FirstListed(payload, offset, requests);
      ParseOne(payload, offset, requests[0], |requests|);
      ListedIsParsed(payload, offset + 2 + |requests[0].pinId|, requests[1..]);
    }
  }

  lemma NothingListed(s: seq<byte>)
    ensures Lists(s, []) <==> forall i :: 0 <= i < |s| ==> s[i] == 0
  {
  }

  lemma FirstListed(payload: seq<byte>, offset: nat, requests: seq<Request>)
    requires offset <= |payload| && requests != []
    ensures Lists(payload[offset..], requests)
       <==> var a, end := requests[0], offset + 2 + |requests[0].pinId|;
            && |payload| >= end
            && payload[offset] == Code(a.function_) && Val(payload[offset + 1]) == |a.pinId|
            && payload[offset + 2..end] == a.pinId
            && Lists(payload[end..], requests[1..])
  {
    hide Code, Val;
    var s, n := payload[offset..], |requests[0].pinId|;
    if |s| >= 2 + n {
      assert s[0] == payload[offset] && s[1] == payload[offset + 1];
      assert s[2..2 + n] == payload[offset + 2..offset + 2 + n] && s[2 + n..] == payload[offset + 2 + n..];
    }
  }

  lemma {:induction false} ParsedIsListed(payload: seq<byte>, offset: nat, count: nat)
    requires offset <= |payload|
    requires var r := ParseEntries(payload, offset, count); r.Some? && AllZeroFrom(payload, r.value.1)
    ensures var requests := ParseEntries(payload, offset, count).value.0;
            |requests| == count && Lists(payload[offset..], requests)
    decreases count
  {
    hide Code, FromCode, Val, Lists;
    if count == 0 {
      NothingListed(payload[offset..]);
    } else {
      var end := offset + 2 + Val(payload[offset + 1]);
      CodeOfFromCode(payload[offset]);
      ParsedIsListed(payload, end, count - 1);
      FirstListed(payload, offset, ParseEntries(payload, offset, count).value.0);
    }
  }

  /** Which bytes are a page, and of what: the pages of some requests decode to what validating these gives, and
    everything else is refused. */
  lemma DecodesExactly(board: Board, page: seq<byte>)
    ensures forall requests :: IsPageOf(page, requests) ==> Deserialized(board, page) == Validate(board, requests)
    ensures (forall requests :: !IsPageOf(page, requests)) ==> Deserialized(board, page) == Err(InvalidPayload)
  {
    hide Validate, ParseEntries, Lists;
    forall requests | IsPageOf(page, requests)
      ensures Deserialized(board, page) == Validate(board, requests)
    {
      ListedIsParsed(page, 6, requests);
    }
    if Deserialized(board, page) != Err(InvalidPayload) {
      var (requests, stop) := ParseEntries(page, 6, Val(page[5])).value;
      ParsedIsListed(page, 6, Val(page[5]));
      assert IsPageOf(page, requests);
    }
  }
}
