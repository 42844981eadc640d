/** The Member entity: a member's identity (email, nickname), the hash of
    the password, and the lifecycle status PENDING -> ACTIVE -> DEACTIVATED.
    A member is built only by the factory Create, moves forward only through
    Activate and Deactivate, and authenticates through an injected
    PasswordEncoder that the member never stores. */
module MemberLifecycle {
  import opened Wrappers

  // ---------------------------------------------------------------------
  // Collaborators
  // ---------------------------------------------------------------------

  datatype MemberStatus = Pending | Active | Deactivated

  /** The raw signup input; any field may be null. */
  datatype MemberCreateInfo = MemberCreateInfo(email: Option<string>, nickname: Option<string>, password: Option<string>)

  /** An error the encoder throws; the member passes it on unchanged. */
  datatype EncoderFault = EncoderFault(description: string)

  /** The hashing capability, left abstract: `encode` may throw or return
      null, and nothing is assumed about how `encode` and `matches` relate. */
  datatype PasswordEncoder = PasswordEncoder(
    encode: Option<string> -> Result<Option<string>, EncoderFault>,
    matches: (Option<string>, string) -> bool)

  /** The law an encoder is expected to obey: it accepts every hash it
      produced for the same plaintext. Member.java does not state it, so it is
      only ever a hypothesis here. */
  ghost predicate AcceptsOwnHashes(encoder: PasswordEncoder) {
    forall p, h :: encoder.encode(p) == Success(Some(h)) ==> encoder.matches(p, h)
  }

  /** Why Create yields no member: a `requireNonNull` that fails, or an
      error thrown by the encoder. */
  datatype CreateError = EmailMissing | NicknameMissing | EncoderThrew(fault: EncoderFault) | HashMissing

  /** The IllegalStateException thrown by a transition whose guard fails;
      `Message` gives the text it carries. */
  datatype LifecycleError = NotPending | NotActive

  function Message(e: LifecycleError): string {
    match e
    case NotPending => "Member is not pending"
    case NotActive => "Member is not active"
  }

  // ---------------------------------------------------------------------
  // The transition table
  // ---------------------------------------------------------------------

  /** Position of a status along PENDING -> ACTIVE -> DEACTIVATED. */
  function Rank(st: MemberStatus): nat {
    match st
    case Pending => 0
    case Active => 1
    case Deactivated => 2
  }

  datatype Command = Activation | Deactivation

  /** The guard and target of a transition: the new status, or the error
      thrown when the current status is not the one the command starts from. */
  function Transition(st: MemberStatus, cmd: Command): (r: Result<MemberStatus, LifecycleError>)
    ensures r.Success? <==> st == (if cmd == Activation then Pending else Active)
    ensures r.Success? ==> Rank(r.value) == Rank(st) + 1
    ensures st == Deactivated ==> r.Failure?
    ensures r.Failure? ==> r.error == (if cmd == Activation then NotPending else NotActive)
  {
    match cmd
    case Activation => if st == Pending then Success(Active) else Failure(NotPending)
    case Deactivation => if st == Active then Success(Deactivated) else Failure(NotActive)
  }

  /** The status after attempting `cmd`: the guard precedes the assignment,
      so a rejected command leaves the status as it was. */
  function After(st: MemberStatus, cmd: Command): (r: MemberStatus)
    ensures r == st <==> Transition(st, cmd).Failure?
    ensures Rank(st) <= Rank(r) <= Rank(st) + 1
  {
    match Transition(st, cmd)
    case Success(next) => next
    case Failure(_) => st
  }

  /** The status after attempting each command of `cmds` in turn. */
  function Run(st: MemberStatus, cmds: seq<Command>): MemberStatus
    decreases |cmds|
  {
    if cmds == [] then st else Run(After(st, cmds[0]), cmds[1..])
  }

  /** The statuses a member passes through: `st`, then the status after
      each command of `cmds`. */
  function Trace(st: MemberStatus, cmds: seq<Command>): (t: seq<MemberStatus>)
    ensures |t| == |cmds| + 1
    ensures t[0] == st && t[|cmds|] == Run(st, cmds)
    ensures forall i :: 0 <= i < |cmds| ==> t[i + 1] == After(t[i], cmds[i])
    decreases |cmds|
  {
    if cmds == [] then [st] else [st] + Trace(After(st, cmds[0]), cmds[1..])
  }

  // ---------------------------------------------------------------------
  // Properties of the lifecycle
  // ---------------------------------------------------------------------

  /** Along any sequence of commands the status never moves backwards. */
  lemma {:induction false} TraceIsMonotone(st: MemberStatus, cmds: seq<Command>)
    ensures forall i, j :: 0 <= i <= j < |Trace(st, cmds)| ==> Rank(Trace(st, cmds)[i]) <= Rank(Trace(st, cmds)[j])
    decreases |cmds|
  {
    var t := Trace(st, cmds);
    if cmds != [] {
      var rest := Trace(After(st, cmds[0]), cmds[1..]);
      TraceIsMonotone(After(st, cmds[0]), cmds[1..]);
      assert t == [st] + rest;
      forall i, j | 0 <= i <= j < |t|
        ensures Rank(t[i]) <= Rank(t[j])
      {
        if i == 0 && j > 0 {
          assert t[j] == rest[j - 1];
          assert Rank(rest[0]) <= Rank(rest[j - 1]);
        } else if i > 0 {
          assert t[i] == rest[i - 1] && t[j] == rest[j - 1];
        }
      }
    }
  }

  /** DEACTIVATED is terminal: no command leaves it. */
  lemma {:induction false} DeactivatedIsTerminal(cmds: seq<Command>)
    ensures Run(Deactivated, cmds) == Deactivated
    ensures forall i :: 0 <= i < |Trace(Deactivated, cmds)| ==> Trace(Deactivated, cmds)[i] == Deactivated
    decreases |cmds|
  {
    if cmds != [] {
      DeactivatedIsTerminal(cmds[1..]);
      assert Trace(Deactivated, cmds) == [Deactivated] + Trace(Deactivated, cmds[1..]);
    }
  }

  /** From ACTIVE the member never returns to PENDING, and ends DEACTIVATED
      exactly when some deactivation is attempted. */
  lemma {:induction false} RunFromActive(cmds: seq<Command>)
    ensures Run(Active, cmds) != Pending
    ensures Run(Active, cmds) == Deactivated <==> Deactivation in cmds
    decreases |cmds|
  {
    if cmds != [] {
      if cmds[0] == Activation {
        RunFromActive(cmds[1..]);
        assert Deactivation in cmds <==> Deactivation in cmds[1..];
      } else {
        DeactivatedIsTerminal(cmds[1..]);
      }
    }
  }

  /** From PENDING the member leaves PENDING exactly when some activation
      is attempted, and ends DEACTIVATED exactly when an activation is
      followed, later, by a deactivation. */
  lemma {:induction false} RunFromPending(cmds: seq<Command>)
    ensures Run(Pending, cmds) != Pending <==> Activation in cmds
    ensures Run(Pending, cmds) == Deactivated
        <==> exists i, j :: 0 <= i < j < |cmds| && cmds[i] == Activation && cmds[j] == Deactivation
    decreases |cmds|
  {
    if cmds != [] {
      var rest := cmds[1..];
      if cmds[0] == Activation {
        RunFromActive(rest);
        if Deactivation in rest {
          var j :| 0 <= j < |rest| && rest[j] == Deactivation;
          assert cmds[0] == Activation && cmds[j + 1] == Deactivation;
        }
        if exists i, j :: 0 <= i < j < |cmds| && cmds[i] == Activation && cmds[j] == Deactivation {
          var i, j :| 0 <= i < j < |cmds| && cmds[i] == Activation && cmds[j] == Deactivation;
          assert rest[j - 1] == Deactivation;
        }
      } else {
        RunFromPending(rest);
        assert Activation in cmds <==> Activation in rest;
        if exists i, j :: 0 <= i < j < |cmds| && cmds[i] == Activation && cmds[j] == Deactivation {
          var i, j :| 0 <= i < j < |cmds| && cmds[i] == Activation && cmds[j] == Deactivation;
          assert rest[i - 1] == Activation && rest[j - 1] == Deactivation;
        }
        if exists i, j :: 0 <= i < j < |rest| && rest[i] == Activation && rest[j] == Deactivation {
          var i, j :| 0 <= i < j < |rest| && rest[i] == Activation && rest[j] == Deactivation;
          assert cmds[i + 1] == Activation && cmds[j + 1] == Deactivation;
        }
      }
    }
  }

  // ---------------------------------------------------------------------
  // The entity
  // ---------------------------------------------------------------------

  /** The four observable fields of a member. */
  datatype MemberState = MemberState(email: string, nickname: string, passwordHash: string, status: MemberStatus)

  class Member {
    var email: string
    var nickname: string
    var passwordHash: string
    var status: MemberStatus

    function State(): MemberState
      reads this
    {
      MemberState(email, nickname, passwordHash, status)
    }

    /** The blank object the factory fills in. */
    constructor Blank()
      ensures fresh(this)
    {
    }

    /** Builds a member from the signup input: each field is checked and
        assigned in turn, the password is hashed by the encoder, and the
        member starts PENDING. The first failing step ends construction and
        the half-built object is discarded. */
    static method Create(info: MemberCreateInfo, encoder: PasswordEncoder) returns (r: Result<Member, CreateError>)
      ensures info.email.None? ==> r == Failure(EmailMissing)
      ensures info.email.Some? && info.nickname.None? ==> r == Failure(NicknameMissing)
      ensures (info.email.Some? && info.nickname.Some? && encoder.encode(info.password).Failure?)
                ==> r == Failure(EncoderThrew(encoder.encode(info.password).error))
      ensures (info.email.Some? && info.nickname.Some? && encoder.encode(info.password) == Success(None))
                ==> r == Failure(HashMissing)
      ensures r.Success? <==> info.email.Some? && info.nickname.Some? && encoder.encode(info.password).Success?
                              && encoder.encode(info.password).value.Some?
      ensures r.Success? ==> fresh(r.value)
      ensures r.Success? ==> r.value.State() == MemberState(info.email.value, info.nickname.value,
                                                            encoder.encode(info.password).value.value, Pending)
    {
      var member := new Member.Blank();
      if info.email.None? {
        return Failure(EmailMissing);
      }
      member.email := info.email.value;
      if info.nickname.None? {
        return Failure(NicknameMissing);
      }
      member.nickname := info.nickname.value;
      var encoded := encoder.encode(info.password);
      if encoded.Failure? {
        return Failure(EncoderThrew(encoded.error));
      }
      if encoded.value.None? {
        return Failure(HashMissing);
      }
      member.passwordHash := encoded.value.value;
      member.status := Pending;
      return Success(member);
    }

    /** PENDING -> ACTIVE; from any other status it fails and changes nothing. */
    method Activate() returns (r: Outcome<LifecycleError>)
      modifies this`status
      ensures old(status) == Pending ==> r == Pass && status == Active
      ensures old(status) != Pending ==> r == Fail(NotPending) && status == old(status)
      ensures r.Fail? ==> Message(r.error) == "Member is not pending"
      ensures status == After(old(status), Activation)
      ensures State() == old(State()).(status := status)
    {
      if status != Pending {
        return Fail(NotPending);
      }
      status := Active;
      return Pass;
    }

    /** ACTIVE -> DEACTIVATED; from any other status it fails and changes nothing. */
    method Deactivate() returns (r: Outcome<LifecycleError>)
      modifies this`status
      ensures old(status) == Active ==> r == Pass && status == Deactivated
      ensures old(status) != Active ==> r == Fail(NotActive) && status == old(status)
      ensures r.Fail? ==> Message(r.error) == "Member is not active"
      ensures status == After(old(status), Deactivation)
      ensures State() == old(State()).(status := status)
    {
      if status != Active {
        return Fail(NotActive);
      }
      status := Deactivated;
      return Pass;
    }

    /** The encoder's verdict on the candidate against the stored hash. It
        reads the hash alone, so the status never gates it. */
    function VerifyPassword(password: Option<string>, encoder: PasswordEncoder): (ok: bool)
      reads this`passwordHash
      ensures ok == encoder.matches(password, passwordHash)
    {
      encoder.matches(password, passwordHash)
    }
  }

  /** A signup followed by activation and deactivation. Under an encoder
      that accepts its own hashes, the creation password verifies at every
      status the member passes through: the status never gates verification. */
  method SignUpAndVerify(info: MemberCreateInfo, encoder: PasswordEncoder) returns (verdicts: seq<bool>)
    requires AcceptsOwnHashes(encoder)
    ensures info.email.Some? && info.nickname.Some? && encoder.encode(info.password).Success?
              && encoder.encode(info.password).value.Some?
            ==> verdicts == [true, true, true]
    ensures !(info.email.Some? && info.nickname.Some? && encoder.encode(info.password).Success?
              && encoder.encode(info.password).value.Some?)
            ==> verdicts == []
  {
    var created := Member.Create(info, encoder);
    if created.Failure? {
      return [];
    }
    var member := created.value;
    var pending := member.VerifyPassword(info.password, encoder);
    var _ := member.Activate();
    var active := member.VerifyPassword(info.password, encoder);
    var _ := member.Deactivate();
    var deactivated := member.VerifyPassword(info.password, encoder);
    assert member.status == Deactivated;
    verdicts := [pending, active, deactivated];
  }
}
