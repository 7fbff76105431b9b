/** The durable principal registry and policy epoch of `pmiri/control_plane.py`.
    Each SQLite transaction is one step. */
module Registry {
  import opened Ordering
  import opened Fingerprints
  import opened Authorization

  datatype Row = Row(principalFingerprint: Digest, payload: StoredPrincipal, revoked: bool)

  /** The table `authenticated_principals`, by authentication reference. */
  type Rows = map<string, Row>

  function RegisterIn(rows: Rows, p: Principal): Result<Rows, Error> {
    if p.authenticationRef in rows then
      var row := rows[p.authenticationRef];
      if row.principalFingerprint != p.fingerprint then Err(ReferenceRebound)
      else if row.revoked then Err(PrincipalRevoked)
      else Ok(rows)
    else Ok(rows[p.authenticationRef := Row(p.fingerprint, Encode(p), false)])
  }

  function RevokeIn(rows: Rows, ref: string): Rows {
    if ref in rows then rows[ref := rows[ref].(revoked := true)] else rows
  }

  function ResolveIn(rows: Rows, ref: Option<string>): Option<Principal> {
    if ref.None? || ref.value == "" || ref.value !in rows || rows[ref.value].revoked then None
    else
      match Decode(rows[ref.value].payload)
      case Ok(p) => Some(p)
      case Err(_) => None
  }

  /** `SQLiteAuthenticationRegistry`. */
  class SQLiteAuthenticationRegistry {
    var rows: Rows

    constructor ()
      ensures rows == map[]
    {
      rows := map[];
    }

    method Register(p: Principal) returns (r: Result<(), Error>)
      modifies this
      ensures match RegisterIn(old(rows), p)
              case Ok(next) => r == Ok(()) && rows == next
              case Err(e) => r == Err(e) && rows == old(rows)
    {
      var payload := Encode(p);
      if p.authenticationRef in rows {
        var row := rows[p.authenticationRef];
        if row.principalFingerprint != p.fingerprint { return Err(ReferenceRebound); }
        if row.revoked { return Err(PrincipalRevoked); }
        return Ok(());
      }
      rows := rows[p.authenticationRef := Row(p.fingerprint, payload, false)];
      return Ok(());
    }

    method Resolve(ref: Option<string>) returns (p: Option<Principal>)
      ensures p == ResolveIn(rows, ref)
    {
      if ref.None? || ref.value == "" { return None; }
      if ref.value !in rows || rows[ref.value].revoked { return None; }
      var decoded := Decode(rows[ref.value].payload);
      return if decoded.Ok? then Some(decoded.value) else None;
    }

    method Revoke(ref: string) returns (changed: bool)
      modifies this
      ensures rows == RevokeIn(old(rows), ref)
      ensures changed <==> ref in old(rows) && !old(rows)[ref].revoked
    {
      changed := ref in rows && !rows[ref].revoked;
      if changed { rows := rows[ref := rows[ref].(revoked := true)]; }
    }
  }

  /** `SQLitePolicyEpoch`: an epoch that never moves backwards. */
  class SQLitePolicyEpoch {
    var epoch: int

    constructor (initial: int)
      requires initial >= 0
      ensures epoch == initial
    {
      epoch := initial;
    }

    method Advance(newEpoch: int) returns (moved: bool)
      modifies this
      ensures moved <==> newEpoch >= 0 && newEpoch >= old(epoch)
      ensures epoch == if moved then newEpoch else old(epoch)
    {
      if newEpoch < 0 { return false; }
      if newEpoch < epoch { return false; }
      epoch := newEpoch;
      return true;
    }

    method Bump() returns (next: int)
      modifies this
      ensures epoch == old(epoch) + 1 && next == epoch
    {
      next := epoch + 1;
      epoch := next;
    }
  }

  // ----- every run of the registry

  datatype Step = Register(principal: Principal) | Revoke(ref: string)

  function Apply(rows: Rows, s: Step): Rows {
    match s
    case Register(p) => (match RegisterIn(rows, p) case Ok(next) => next case Err(_) => rows)
    case Revoke(ref) => RevokeIn(rows, ref)
  }

  /** No step takes a row away or changes it but for marking it revoked. */
  lemma ApplyKeeps(rows: Rows, s: Step, ref: string)
    requires ref in rows
    ensures ref in Apply(rows, s)
    ensures Apply(rows, s)[ref] == rows[ref].(revoked := rows[ref].revoked || s == Revoke(ref))
  {
  }

  function RowsAfter(steps: seq<Step>): Rows {
    if steps == [] then map[] else Apply(RowsAfter(steps[..|steps| - 1]), steps[|steps| - 1])
  }

  predicate Registers(s: Step, ref: string) { s.Register? && s.principal.authenticationRef == ref }

  /** Step `i` is the first to register anything under `ref`. */
  ghost predicate FirstAt(steps: seq<Step>, ref: string, i: nat) {
    i < |steps| && Registers(steps[i], ref) && forall j :: 0 <= j < i ==> !Registers(steps[j], ref)
  }

  ghost predicate RevokedSince(steps: seq<Step>, ref: string, i: nat) {
    exists k :: i < k < |steps| && steps[k] == Revoke(ref)
  }

  lemma {:induction false} UnregisteredIsAbsent(steps: seq<Step>, ref: string)
    requires forall j :: 0 <= j < |steps| ==> !Registers(steps[j], ref)
    ensures ref !in RowsAfter(steps)
  {
    if steps != [] { UnregisteredIsAbsent(steps[..|steps| - 1], ref); }
  }

  /** The row of a reference is its first registration, for ever, marked revoked
      exactly when a revocation followed. */
  lemma {:induction false} RowIsFirstRegistration(steps: seq<Step>, ref: string, i: nat)
    requires FirstAt(steps, ref, i)
    ensures ref in RowsAfter(steps)
    ensures var p := steps[i].principal;
            RowsAfter(steps)[ref] == Row(p.fingerprint, Encode(p), RevokedSince(steps, ref, i))
  {
    var init, last := steps[..|steps| - 1], steps[|steps| - 1];
    if i == |steps| - 1 {
      UnregisteredIsAbsent(init, ref);
    } else {
      assert FirstAt(init, ref, i);
      RowIsFirstRegistration(init, ref, i);
      if RevokedSince(init, ref, i) {
        var k :| i < k < |init| && init[k] == Revoke(ref);
        assert steps[k] == Revoke(ref);
      }
      if RevokedSince(steps, ref, i) && last != Revoke(ref) {
        var k :| i < k < |steps| && steps[k] == Revoke(ref);
        assert init[k] == Revoke(ref);
      }
    }
  }

  /** Over every run, a reference resolves only under the fingerprint of its first
      registration, to exactly that principal when it is genuine, and not at all
      once revoked or if never registered. */
  lemma ResolvesOnlyToTheFirst(steps: seq<Step>, ref: string)
    ensures var r := ResolveIn(RowsAfter(steps), Some(ref));
            && ((forall i: nat :: !FirstAt(steps, ref, i)) ==> r == None)
            && (forall i: nat :: FirstAt(steps, ref, i) ==>
                  && (RevokedSince(steps, ref, i) ==> r == None)
                  && (r.Some? ==> Genuine(r.value) && r.value.fingerprint == steps[i].principal.fingerprint)
                  && (Genuine(steps[i].principal) && !RevokedSince(steps, ref, i) ==> r == Some(steps[i].principal)))
  {
    forall i: nat | FirstAt(steps, ref, i)
      ensures var r := ResolveIn(RowsAfter(steps), Some(ref));
              && (RevokedSince(steps, ref, i) ==> r == None)
              && (r.Some? ==> Genuine(r.value) && r.value.fingerprint == steps[i].principal.fingerprint)
              && (Genuine(steps[i].principal) && !RevokedSince(steps, ref, i) ==> r == Some(steps[i].principal))
    {
      var p := steps[i].principal;
      RowIsFirstRegistration(steps, ref, i);
      if Decode(Encode(p)).Ok? { DecodedIsGenuine(Encode(p)); }
      if Genuine(p) {
        StoredRoundTrip(p);
        assert Reverify(p).Ok? by { GenuineRebuilds(p); }
        assert [p.authenticationRef, p.principalRef, p.principalType, p.servicePrincipalRef, p.policyBundleRef,
                p.policyVersion][0] != "";
      }
    }
    if forall i: nat :: !FirstAt(steps, ref, i) {
      NoFirstMeansNone(steps, ref, |steps|);
      UnregisteredIsAbsent(steps, ref);
    }
  }

  lemma {:induction false} NoFirstMeansNone(steps: seq<Step>, ref: string, n: nat)
    requires n <= |steps| && forall i: nat :: !FirstAt(steps, ref, i)
    ensures forall j :: 0 <= j < n ==> !Registers(steps[j], ref)
  {
    if n > 0 {
      NoFirstMeansNone(steps, ref, n - 1);
      assert !FirstAt(steps, ref, n - 1);
    }
  }

  /** Over every run, what a registration is answered: accepted under a new reference
      or as an exact repeat of a standing one, refused as rebound when the fingerprint
      differs from the first, refused as revoked when it does not. */
  lemma RegistersExactly(steps: seq<Step>, p: Principal)
    ensures var r := RegisterIn(RowsAfter(steps), p);
            && ((forall i: nat :: !FirstAt(steps, p.authenticationRef, i)) ==> r.Ok?)
            && (forall i: nat :: FirstAt(steps, p.authenticationRef, i) ==>
                  if steps[i].principal.fingerprint != p.fingerprint then r == Err(ReferenceRebound)
                  else if RevokedSince(steps, p.authenticationRef, i) then r == Err(PrincipalRevoked)
                  else r == Ok(RowsAfter(steps)))
  {
    forall i: nat | FirstAt(steps, p.authenticationRef, i)
      ensures p.authenticationRef in RowsAfter(steps)
      ensures RowsAfter(steps)[p.authenticationRef].principalFingerprint == steps[i].principal.fingerprint
      ensures RowsAfter(steps)[p.authenticationRef].revoked == RevokedSince(steps, p.authenticationRef, i)
    {
      RowIsFirstRegistration(steps, p.authenticationRef, i);
    }
    if forall i: nat :: !FirstAt(steps, p.authenticationRef, i) {
      NoFirstMeansNone(steps, p.authenticationRef, |steps|);
      UnregisteredIsAbsent(steps, p.authenticationRef);
    } else {
      var i: nat :| FirstAt(steps, p.authenticationRef, i);
      RowIsFirstRegistration(steps, p.authenticationRef, i);
    }
  }

  /** After a revocation the reference registers nothing again, whoever asks. */
  lemma RevokedNeverRegisters(steps: seq<Step>, ref: string, i: nat, p: Principal)
    requires FirstAt(steps, ref, i) && RevokedSince(steps, ref, i) && p.authenticationRef == ref
    ensures RegisterIn(RowsAfter(steps), p).Err?
  {
    RowIsFirstRegistration(steps, ref, i);
  }

  // ----- the in-memory registry

  type Memory = map<string, Principal>

  function RegisterInMemory(m: Memory, p: Principal): Result<Memory, Error> {
    if p.authenticationRef in m && m[p.authenticationRef].fingerprint != p.fingerprint then Err(ReferenceRebound)
    else Ok(m[p.authenticationRef := p])
  }

  function ResolveInMemory(m: Memory, ref: Option<string>): Option<Principal> {
    if ref.Some? && ref.value != "" && ref.value in m then Some(m[ref.value]) else None
  }

  /** `AuthenticationRegistry` of `pmiri/request_auth.py`; it knows no revocation. */
  class AuthenticationRegistry {
    var principals: Memory

    constructor ()
      ensures principals == map[]
    {
      principals := map[];
    }

    method Register(p: Principal) returns (r: Result<(), Error>)
      modifies this
      ensures match RegisterInMemory(old(principals), p)
              case Ok(next) => r == Ok(()) && principals == next
              case Err(e) => r == Err(e) && principals == old(principals)
    {
      if p.authenticationRef in principals && principals[p.authenticationRef].fingerprint != p.fingerprint {
        return Err(ReferenceRebound);
      }
      principals := principals[p.authenticationRef := p];
      return Ok(());
    }

    method Resolve(ref: Option<string>) returns (p: Option<Principal>)
      ensures p == ResolveInMemory(principals, ref)
    {
      if ref.None? || ref.value == "" { return None; }
      return if ref.value in principals then Some(principals[ref.value]) else None;
    }
  }

  function MemoryAfter(steps: seq<Step>): Memory {
    if steps == [] then map[]
    else
      var before := MemoryAfter(steps[..|steps| - 1]);
      match steps[|steps| - 1]
      case Register(p) => (match RegisterInMemory(before, p) case Ok(next) => next case Err(_) => before)
      case Revoke(_) => before
  }

  ghost predicate AllGenuine(steps: seq<Step>) {
    forall i :: 0 <= i < |steps| ==> steps[i].Register? && Genuine(steps[i].principal)
  }

  ghost predicate SameRegistrations(m: Memory, rows: Rows) {
    && m.Keys == rows.Keys
    && forall ref :: ref in m ==>
         Genuine(m[ref]) && rows[ref] == Row(m[ref].fingerprint, Encode(m[ref]), false)
           && m[ref].authenticationRef == ref
  }

  lemma RegisterBoth(m: Memory, rows: Rows, p: Principal)
    requires SameRegistrations(m, rows) && Genuine(p)
    ensures RegisterInMemory(m, p).Ok? <==> RegisterIn(rows, p).Ok?
    ensures RegisterInMemory(m, p).Ok? ==> SameRegistrations(RegisterInMemory(m, p).value, RegisterIn(rows, p).value)
  {
    if p.authenticationRef in m && m[p.authenticationRef].fingerprint == p.fingerprint {
      FingerprintDecides(m[p.authenticationRef], p);
      assert m[p.authenticationRef := p] == m;
    }
  }

  lemma {:induction false} RegistrationsMirror(steps: seq<Step>)
    requires AllGenuine(steps)
    ensures SameRegistrations(MemoryAfter(steps), RowsAfter(steps))
  {
    if steps != [] {
      RegistrationsMirror(steps[..|steps| - 1]);
      RegisterBoth(MemoryAfter(steps[..|steps| - 1]), RowsAfter(steps[..|steps| - 1]), steps[|steps| - 1].principal);
    }
  }

  /** Without revocations the two registries resolve every reference alike. */
  lemma RegistriesAgree(steps: seq<Step>, ref: Option<string>)
    requires AllGenuine(steps)
    ensures ResolveInMemory(MemoryAfter(steps), ref) == ResolveIn(RowsAfter(steps), ref)
  {
    RegistrationsMirror(steps);
    if ref.Some? && ref.value in MemoryAfter(steps) { StoredRoundTrip(MemoryAfter(steps)[ref.value]); }
  }
}
