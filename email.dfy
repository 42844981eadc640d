/** The Email value type: an immutable record whose construction rejects a
    null address and any address that does not fully match the email pattern.

    The pattern is read as a sequence of regular-expression elements, matched
    with the semantics of java.util.regex under Matcher.matches() and the
    default flags (no MULTILINE): `^` holds only at the start of the input,
    `$` only at the end of the input or just before a line terminator that
    ends it, and the whole input must be consumed. */
module EmailAddress {
  import opened Wrappers

  // ---------------------------------------------------------------------
  // Character classes of the pattern
  // ---------------------------------------------------------------------

  /** The two bracket classes of the pattern: `[A-Za-z0-9+_.-]` for the
      local part and `[A-Za-z0-9.-]` for the domain. */
  datatype CharClass = LocalChars | DomainChars

  predicate IsAsciiAlphanumeric(c: char) {
    'A' <= c <= 'Z' || 'a' <= c <= 'z' || '0' <= c <= '9'
  }

  predicate InClass(c: char, cls: CharClass) {
    match cls
    case LocalChars => IsAsciiAlphanumeric(c) || c in "+_.-"
    case DomainChars => IsAsciiAlphanumeric(c) || c in ".-"
  }

  /** Every character of `s` belongs to `cls`. */
  predicate AllIn(s: string, cls: CharClass)
    decreases |s|
  {
    |s| == 0 || (InClass(s[0], cls) && AllIn(s[1..], cls))
  }

  lemma {:induction false} AllInAt(s: string, cls: CharClass)
    ensures AllIn(s, cls) <==> forall k :: 0 <= k < |s| ==> InClass(s[k], cls)
  {
    if |s| > 0 {
      AllInAt(s[1..], cls);
      assert forall k :: 1 <= k < |s| ==> s[1..][k - 1] == s[k];
    }
  }

  /** What Java's `\s` matches: space, tab, newline, vertical tab, form feed
      and carriage return. */
  predicate IsWhitespace(c: char) {
    c == ' ' || c == '\t' || c == '\n' || c == '\U{0B}' || c == '\U{0C}' || c == '\r'
  }

  /** The line terminators that `$` may stand before (the default,
      non-UNIX_LINES mode). */
  predicate IsLineTerminator(t: string) {
    t == "\n" || t == "\r\n" || t == "\r" || t == "\U{85}" || t == "\U{2028}" || t == "\U{2029}"
  }

  // ---------------------------------------------------------------------
  // Patterns and full matching
  // ---------------------------------------------------------------------

  /** The elements the email pattern is built from: a literal character,
      the anchors `^` and `$`, and a bracket class followed by `+`. */
  datatype Elem = Lit(c: char) | InputStart | InputEnd | OneOrMore(cls: CharClass)

  /** Position `pos` is where `$` holds without MULTILINE: the end of the
      input, or before a line terminator that ends it, but never between the
      `\r` and the `\n` of a final `\r\n`. */
  predicate AtInputEnd(s: string, pos: nat)
    requires pos <= |s|
  {
    pos == |s| || (IsLineTerminator(s[pos..]) && !(pos > 0 && s[pos - 1] == '\r' && s[pos..] == "\n"))
  }

  /** The elements `p` match exactly `s[pos..]`, backtracking over how much
      each `+` consumes. */
  predicate MatchFrom(p: seq<Elem>, s: string, pos: nat)
    requires pos <= |s|
    decreases |p|
  {
    if p == [] then pos == |s|
    else match p[0]
      case Lit(c) => pos < |s| && s[pos] == c && MatchFrom(p[1..], s, pos + 1)
      case InputStart => pos == 0 && MatchFrom(p[1..], s, pos)
      case InputEnd => AtInputEnd(s, pos) && MatchFrom(p[1..], s, pos)
      case OneOrMore(cls) =>
        exists j :: pos < j <= |s| && AllIn(s[pos..j], cls) && MatchFrom(p[1..], s, j)
  }

  /** `Pattern.matcher(s).matches()`. */
  predicate FullMatch(p: seq<Elem>, s: string) {
    MatchFrom(p, s, 0)
  }

  /** The pattern of Email.java:8 without its quote characters,
      `^[A-Za-z0-9+_.-]+@[A-Za-z0-9.-]+$`, which is evidently what the
      literal means. */
  const IntendedPattern: seq<Elem> :=
    [InputStart, OneOrMore(LocalChars), Lit('@'), OneOrMore(DomainChars), InputEnd]

  /** The pattern as Email.java compiles it: the string literal also holds a
      quote character before `^` and after `$`. */
  const LiteralPattern: seq<Elem> := [Lit('"')] + IntendedPattern + [Lit('"')]

  /** Reference shape of an acceptable address: it splits at an `@` into a
      non-empty local part over the local class and a non-empty domain over
      the domain class. */
  predicate SplitsAt(s: string, i: int) {
    0 < i < |s| - 1 && s[i] == '@' && AllIn(s[..i], LocalChars) && AllIn(s[i + 1..], DomainChars)
  }

  ghost predicate WellFormed(s: string) {
    exists i :: SplitsAt(s, i)
  }

  // ---------------------------------------------------------------------
  // The intended pattern accepts exactly the well-formed addresses
  // ---------------------------------------------------------------------

  lemma EndMatches(s: string, m: nat)
    requires m <= |s|
    ensures MatchFrom([InputEnd], s, m) <==> m == |s|
  {
  }

  lemma DomainTailMatches(s: string, k: nat)
    requires k <= |s|
    ensures MatchFrom([OneOrMore(DomainChars), InputEnd], s, k) <==> k < |s| && AllIn(s[k..], DomainChars)
  {
    var p := [OneOrMore(DomainChars), InputEnd];
    assert p[1..] == [InputEnd];
    if MatchFrom(p, s, k) {
      var m :| k < m <= |s| && AllIn(s[k..m], DomainChars) && MatchFrom([InputEnd], s, m);
      EndMatches(s, m);
      assert s[k..m] == s[k..];
    }
    if k < |s| && AllIn(s[k..], DomainChars) {
      EndMatches(s, |s|);
      assert s[k..|s|] == s[k..];
      assert AllIn(s[k..|s|], DomainChars) && MatchFrom(p[1..], s, |s|);
    }
  }

  lemma AfterLocalMatches(s: string, j: nat)
    requires j <= |s|
    ensures MatchFrom([Lit('@'), OneOrMore(DomainChars), InputEnd], s, j)
        <==> j < |s| - 1 && s[j] == '@' && AllIn(s[j + 1..], DomainChars)
  {
    var p := [Lit('@'), OneOrMore(DomainChars), InputEnd];
    assert p[1..] == [OneOrMore(DomainChars), InputEnd];
    if j < |s| {
      DomainTailMatches(s, j + 1);
    }
  }

  lemma {:induction false} IntendedMatchIffWellFormed(s: string)
    ensures FullMatch(IntendedPattern, s) <==> WellFormed(s)
  {
    var afterStart := [OneOrMore(LocalChars), Lit('@'), OneOrMore(DomainChars), InputEnd];
    var afterLocal := [Lit('@'), OneOrMore(DomainChars), InputEnd];
    assert IntendedPattern[1..] == afterStart;
    assert afterStart[1..] == afterLocal;
    assert FullMatch(IntendedPattern, s) == MatchFrom(afterStart, s, 0);
    forall j | 0 < j <= |s|
      ensures (AllIn(s[0..j], LocalChars) && MatchFrom(afterLocal, s, j)) <==> SplitsAt(s, j)
    {
      AfterLocalMatches(s, j);
      assert s[0..j] == s[..j];
    }
    if WellFormed(s) {
      var i :| SplitsAt(s, i);
      assert AllIn(s[0..i], LocalChars) && MatchFrom(afterLocal, s, i);
    }
  }

  // ---------------------------------------------------------------------
  // Consequences for the accepted language
  // ---------------------------------------------------------------------

  /** An accepted address has exactly one `@`, at the split point. */
  lemma WellFormedHasSingleAt(s: string, i: int)
    requires SplitsAt(s, i)
    ensures multiset(s)['@'] == 1
    ensures forall k :: 0 <= k < |s| && s[k] == '@' ==> k == i
  {
    AllInAt(s[..i], LocalChars);
    AllInAt(s[i + 1..], DomainChars);
    forall k | 0 <= k < i
      ensures s[k] != '@'
    {
      assert s[..i][k] == s[k];
    }
    forall k | i < k < |s|
      ensures s[k] != '@'
    {
      assert s[i + 1..][k - i - 1] == s[k];
    }
    assert s == s[..i] + [s[i]] + s[i + 1..];
    assert '@' !in s[..i];
    assert '@' !in s[i + 1..];
    assert multiset(s) == multiset(s[..i]) + multiset{'@'} + multiset(s[i + 1..]);
  }

  /** Every character of an accepted address is a local character, the `@`
      or a domain character. */
  lemma WellFormedCharacters(s: string, k: int)
    requires WellFormed(s) && 0 <= k < |s|
    ensures InClass(s[k], LocalChars) || s[k] == '@' || InClass(s[k], DomainChars)
  {
    var i :| SplitsAt(s, i);
    AllInAt(s[..i], LocalChars);
    AllInAt(s[i + 1..], DomainChars);
    if k < i {
      assert s[..i][k] == s[k];
    } else if k > i {
      assert s[i + 1..][k - i - 1] == s[k];
    }
  }

  /** As literally compiled, the pattern must match `"` at index 0 and then
      `^` at index 1, where it never holds: no string matches. */
  lemma LiteralPatternMatchesNothing(s: string)
    ensures !FullMatch(LiteralPattern, s)
  {
    assert LiteralPattern[0] == Lit('"');
    assert LiteralPattern[1..][0] == InputStart;
    if 0 < |s| && s[0] == '"' {
      assert !MatchFrom(LiteralPattern[1..], s, 1);
    }
  }

  /** An address with no `@` or more than one (in particular the empty
      address) is rejected by both patterns. */
  lemma RejectsUnlessSingleAt(s: string)
    requires multiset(s)['@'] != 1
    ensures !FullMatch(IntendedPattern, s) && !FullMatch(LiteralPattern, s)
  {
    IntendedMatchIffWellFormed(s);
    LiteralPatternMatchesNothing(s);
    if WellFormed(s) {
      var i :| SplitsAt(s, i);
      WellFormedHasSingleAt(s, i);
    }
  }

  /** A character that is neither in a class nor the `@` makes both
      patterns reject the address. */
  lemma RejectsForeignCharacter(s: string, k: int)
    requires 0 <= k < |s|
    requires !InClass(s[k], LocalChars) && s[k] != '@' && !InClass(s[k], DomainChars)
    ensures !FullMatch(IntendedPattern, s) && !FullMatch(LiteralPattern, s)
  {
    IntendedMatchIffWellFormed(s);
    LiteralPatternMatchesNothing(s);
    if WellFormed(s) {
      WellFormedCharacters(s, k);
    }
  }

  /** Whitespace anywhere in the address is rejected by both patterns. */
  lemma RejectsWhitespace(s: string, k: int)
    requires 0 <= k < |s| && IsWhitespace(s[k])
    ensures !FullMatch(IntendedPattern, s) && !FullMatch(LiteralPattern, s)
  {
    RejectsForeignCharacter(s, k);
  }

  /** Matching is whole-string: a leading character outside the local class
      is not skipped. */
  lemma RejectsForeignPrefix(c: char, t: string)
    requires !InClass(c, LocalChars)
    ensures !FullMatch(IntendedPattern, [c] + t)
  {
    IntendedMatchIffWellFormed([c] + t);
  }

  /** Matching is whole-string: a trailing character outside the domain
      class is not ignored. */
  lemma RejectsForeignSuffix(t: string, c: char)
    requires !InClass(c, DomainChars)
    ensures !FullMatch(IntendedPattern, t + [c])
  {
    var s := t + [c];
    IntendedMatchIffWellFormed(s);
    forall i | 0 < i < |s| - 1
      ensures !SplitsAt(s, i)
    {
      AllInAt(s[i + 1..], DomainChars);
      assert s[i + 1..][|s| - i - 2] == c;
    }
  }

  // ---------------------------------------------------------------------
  // The Email record and its validating constructor
  // ---------------------------------------------------------------------

  /** An email address held by value: two Emails are equal exactly when
      their addresses are. */
  datatype Email = Email(address: string)

  /** An Email whose address the pattern accepts: the only kind the compact
      constructor lets into existence. */
  type ValidEmail = e: Email | FullMatch(IntendedPattern, e.address)
    witness (SampleAddressMatches(); Email("a@b"))

  lemma SampleAddressMatches()
    ensures FullMatch(IntendedPattern, "a@b")
  {
    var s := "a@b";
    assert s[..1] == "a" && s[2..] == "b";
    assert SplitsAt(s, 1);
    IntendedMatchIffWellFormed(s);
  }

  /** The two ways construction fails: `requireNonNull` on a null address,
      and the IllegalArgumentException for an address the pattern rejects. */
  datatype EmailError = NullAddress | InvalidAddress(message: string)

  function InvalidAddressMessage(address: string): string {
    "Invalid email address: " + address
  }

  /** The record's compact constructor as written, with the literal pattern. */
  function CreateAsWritten(address: Option<string>): (r: Result<Email, EmailError>)
    ensures address.None? ==> r == Failure(NullAddress)
    ensures r.Success? ==> r.value.address == address.value
  {
    match address
    case None => Failure(NullAddress)
    case Some(a) =>
      if FullMatch(LiteralPattern, a) then Success(Email(a))
      else Failure(InvalidAddress(InvalidAddressMessage(a)))
  }

  /** The constructor as written rejects every address, null or not. */
  lemma CreateAsWrittenRejectsEverything(address: Option<string>)
    ensures CreateAsWritten(address).Failure?
    ensures address.Some? ==> CreateAsWritten(address) == Failure(InvalidAddress(InvalidAddressMessage(address.value)))
  {
    if address.Some? {
      LiteralPatternMatchesNothing(address.value);
    }
  }

  /** The record's compact constructor with the intended pattern. */
  function Create(address: Option<string>): (r: Result<ValidEmail, EmailError>)
    ensures address.None? ==> r == Failure(NullAddress)
    ensures address.Some? ==> (r.Success? <==> WellFormed(address.value))
    ensures (address.Some? && !WellFormed(address.value))
              ==> r == Failure(InvalidAddress(InvalidAddressMessage(address.value)))
    ensures r.Success? ==> r.value.address == address.value
  {
    match address
    case None => Failure(NullAddress)
    case Some(a) =>
      IntendedMatchIffWellFormed(a);
      if FullMatch(IntendedPattern, a) then Success(Email(a))
      else Failure(InvalidAddress(InvalidAddressMessage(a)))
  }

  /** Two accepted addresses give equal Email values exactly when the
      addresses are equal. */
  lemma EmailEqualityIsAddressEquality(a: string, b: string)
    requires Create(Some(a)).Success? && Create(Some(b)).Success?
    ensures Create(Some(a)).value == Create(Some(b)).value <==> a == b
  {
  }
}
