/** The sign-up screen's email check: the fixed pattern
    `^[a-zA-Z0-9._%+-]+@(gmail\.com|outlook\.com)$`, tested case-sensitively
    (the pattern carries no `i` flag). */
module EmailValidation {
  import opened Regex

  /** The local-part class `[a-zA-Z0-9._%+-]`, range by range. */
  const LocalPartClass: seq<Range> :=
    [Range('a', 'z'), Range('A', 'Z'), Range('0', '9'), Range('.', '.'),
     Range('_', '_'), Range('%', '%'), Range('+', '+'), Range('-', '-')]

  const Gmail: string := "gmail.com"
  const Outlook: string := "outlook.com"

  /** The pieces of the pattern, and the pattern as the sign-up screen writes it,
      anchored at both ends. */
  const LocalRe: Re := Plus(Class(LocalPartClass))
  const DomainRe: Re := Alt(Word(Gmail), Word(Outlook))
  const TailRe: Re := Cat(Lit('@'), DomainRe)
  const EmailPattern: Pattern := Pattern(Cat(LocalRe, TailRe), true, true)

  predicate IsLocalChar(c: char)
  {
    ('a' <= c <= 'z') || ('A' <= c <= 'Z') || ('0' <= c <= '9')
    || c == '.' || c == '_' || c == '%' || c == '+' || c == '-'
  }

  predicate AllLocal(t: string)
  {
    forall i | 0 <= i < |t| :: IsLocalChar(t[i])
  }

  /** `s` is a non-empty run of local-part characters, then `'@'`, then exactly `domain`. */
  predicate EndsWithDomain(s: string, domain: string)
  {
    |s| > |domain| + 1
    && s[|s| - |domain|..] == domain
    && s[|s| - |domain| - 1] == '@'
    && AllLocal(s[..|s| - |domain| - 1])
  }

  /** The check the sign-up handler runs on the email field. */
  predicate IsValidEmail(s: string): (r: bool)
    ensures r ==> |s| >= 11 && s[|s| - 4..] == ".com"
  {
    assert EndsWithDomain(s, Gmail) ==> s[|s| - 4..] == s[|s| - |Gmail|..][5..];
    assert EndsWithDomain(s, Outlook) ==> s[|s| - 4..] == s[|s| - |Outlook|..][7..];

    EndsWithDomain(s, Gmail) || EndsWithDomain(s, Outlook)
  }

  function CountChar(s: string, c: char): (n: nat)
    ensures n <= |s|
  {
    if s == [] then 0 else (if s[0] == c then 1 else 0) + CountChar(s[1..], c)
  }

  /** The split of an accepted address at its `'@'`. */
  function Parts(s: string): (p: (string, string))
    requires IsValidEmail(s)
    ensures s == p.0 + ['@'] + p.1
    ensures |p.0| > 0 && AllLocal(p.0)
    ensures p.1 == Gmail || p.1 == Outlook
  {
    var domain := if EndsWithDomain(s, Gmail) then Gmail else Outlook;
    var at := |s| - |domain| - 1;
    assert s == s[..at] + ['@'] + s[at + 1..];
    (s[..at], domain)
  }

  lemma LocalCharInClass(c: char)
    ensures IsLocalChar(c) <==> InRanges(c, LocalPartClass)
  {
    var rs := LocalPartClass;
    assert InRanges(c, rs) <==> ('a' <= c <= 'z') || InRanges(c, rs[1..]);
    assert InRanges(c, rs[1..]) <==> ('A' <= c <= 'Z') || InRanges(c, rs[2..]);
    assert InRanges(c, rs[2..]) <==> ('0' <= c <= '9') || InRanges(c, rs[3..]);
    assert InRanges(c, rs[3..]) <==> c == '.' || InRanges(c, rs[4..]);
    assert InRanges(c, rs[4..]) <==> c == '_' || InRanges(c, rs[5..]);
    assert InRanges(c, rs[5..]) <==> c == '%' || InRanges(c, rs[6..]);
    assert InRanges(c, rs[6..]) <==> c == '+' || InRanges(c, rs[7..]);
    assert InRanges(c, rs[7..]) <==> c == '-' || InRanges(c, rs[8..]);
    assert rs[8..] == [];
  }

  /** `[a-zA-Z0-9._%+-]+` matches the non-empty runs of local-part characters. */
  lemma LocalMatches(t: string)
    ensures Matches(LocalRe, t) <==> |t| > 0 && AllLocal(t)
  {
    PlusClassMatches(LocalPartClass, t);
    forall i | 0 <= i < |t| { LocalCharInClass(t[i]); }
  }

  /** `(gmail\.com|outlook\.com)` matches the two domains and nothing else. */
  lemma DomainMatches(d: string)
    ensures Matches(DomainRe, d) <==> d == Gmail || d == Outlook
  {
    WordMatches(Gmail, d);
    WordMatches(Outlook, d);
  }

  /** `@(gmail\.com|outlook\.com)` matches `'@'` followed by one of the domains. */
  lemma TailMatches(u: string)
    ensures Matches(TailRe, u) <==> |u| > 0 && u[0] == '@' && (u[1..] == Gmail || u[1..] == Outlook)
  {
    CatLitMatches('@', DomainRe, u);
    if |u| > 0 { DomainMatches(u[1..]); }
  }

  lemma NoAtInDomains()
    ensures forall i | 0 <= i < |Gmail| :: Gmail[i] != '@'
    ensures forall i | 0 <= i < |Outlook| :: Outlook[i] != '@'
  {
  }

  /** In an accepted address the one `'@'` sits right after the local part. */
  lemma AtOnlyAfterLocal(s: string)
    requires IsValidEmail(s)
    ensures forall i | 0 <= i < |s| :: s[i] == '@' <==> i == |Parts(s).0|
  {
    var p := Parts(s);
    NoAtInDomains();
    forall i | 0 <= i < |s| ensures s[i] == '@' <==> i == |p.0| {
      if i < |p.0| {
        assert s[i] == p.0[i] && IsLocalChar(p.0[i]);
      } else if i > |p.0| {
        assert s[i] == p.1[i - |p.0| - 1];
      }
    }
  }

  /** An address assembled from a local part and a domain is accepted exactly
      when the local part is a non-empty run of class characters and the domain
      is literally one of the two (so `Gmail.com` is refused). */
  lemma ValidEmailParts(local: string, domain: string)
    ensures IsValidEmail(local + ['@'] + domain)
        <==> |local| > 0 && AllLocal(local) && (domain == Gmail || domain == Outlook)
  {
    var s := local + ['@'] + domain;
    if IsValidEmail(s) {
      var p := Parts(s);
      AtOnlyAfterLocal(s);
      assert s[|local|] == '@';
      assert local == s[..|local|] == p.0;
      assert domain == s[|local| + 1..] == p.1;
    }
    if |local| > 0 && AllLocal(local) && (domain == Gmail || domain == Outlook) {
      assert s[|s| - |domain|..] == domain;
      assert s[..|s| - |domain| - 1] == local;
    }
  }

  lemma BodyAccepts(s: string)
    requires IsValidEmail(s)
    ensures Matches(Cat(LocalRe, TailRe), s)
  {
    var p := Parts(s);
    var k := |p.0|;
    assert s[..k] == p.0 && s[k..] == ['@'] + p.1;
    LocalMatches(s[..k]);
    TailMatches(s[k..]);
    CatIntro(LocalRe, TailRe, s, k);
  }

  lemma SplitAround(s: string, k: nat)
    requires k < |s|
    ensures s == s[..k] + [s[k]] + s[k + 1..]
  {
  }

  /** A string in the language of the pattern has a local part, then `'@'` at
      `k`, then a domain of the kinds the pattern names. */
  lemma BodySplit(s: string) returns (k: nat)
    requires Matches(Cat(LocalRe, TailRe), s)
    ensures k < |s| && s[k] == '@'
    ensures |s[..k]| > 0 && AllLocal(s[..k])
    ensures s[k + 1..] == Gmail || s[k + 1..] == Outlook
  {
    k := CatElim(LocalRe, TailRe, s);
    LocalMatches(s[..k]);
    TailMatches(s[k..]);
    assert s[k..][1..] == s[k + 1..];
  }

  lemma BodyOnlyAccepts(s: string)
    requires Matches(Cat(LocalRe, TailRe), s)
    ensures IsValidEmail(s)
  {
    var k := BodySplit(s);
    SplitAround(s, k);
    ValidEmailParts(s[..k], s[k + 1..]);
  }

  /** The executable check agrees with the pattern on every string. */
  lemma EmailPatternSpec(s: string)
    ensures Test(EmailPattern, s) <==> IsValidEmail(s)
  {
    AnchoredTest(EmailPattern, s);
    if IsValidEmail(s) { BodyAccepts(s); }
    if Matches(EmailPattern.body, s) { BodyOnlyAccepts(s); }
  }

  /** The pattern accepts a local part, `'@'` and a domain exactly when the
      local part is a non-empty run of class characters and the domain is
      literally `gmail.com` or `outlook.com`. */
  lemma PatternParts(local: string, domain: string)
    ensures Test(EmailPattern, local + ['@'] + domain)
        <==> |local| > 0 && AllLocal(local) && (domain == Gmail || domain == Outlook)
  {
    EmailPatternSpec(local + ['@'] + domain);
    ValidEmailParts(local, domain);
  }

  /** A string in which `c` occurs at one position only counts it once. */
  lemma {:induction false} CountSingle(s: string, c: char, j: nat)
    requires j < |s|
    requires forall i | 0 <= i < |s| :: s[i] == c <==> i == j
    ensures CountChar(s, c) == 1
    decreases |s|
  {
    if j == 0 {
      CountAbsent(s[1..], c);
    } else {
      CountSingle(s[1..], c, j - 1);
    }
  }

  lemma {:induction false} CountAbsent(s: string, c: char)
    requires forall i | 0 <= i < |s| :: s[i] != c
    ensures CountChar(s, c) == 0
    decreases |s|
  {
    if s != [] { CountAbsent(s[1..], c); }
  }

  /** An accepted address holds exactly one `'@'`: the class does not contain it
      and neither domain does. */
  lemma ExactlyOneAt(s: string)
    requires IsValidEmail(s)
    ensures CountChar(s, '@') == 1
  {
    AtOnlyAfterLocal(s);
    CountSingle(s, '@', |Parts(s).0|);
  }

  /** The domain is compared case-sensitively (the pattern has no `i` flag):
      whatever the local part, `@Gmail.com` is refused where `@gmail.com` is not. */
  lemma DomainCaseSensitive(local: string)
    ensures IsValidEmail(local + "@gmail.com") <==> |local| > 0 && AllLocal(local)
    ensures !IsValidEmail(local + "@Gmail.com")
  {
    assert local + "@gmail.com" == local + ['@'] + Gmail;
    ValidEmailParts(local, Gmail);
    assert local + "@Gmail.com" == local + ['@'] + "Gmail.com";
    ValidEmailParts(local, "Gmail.com");
  }

  /** Only the two providers: `outlook.com` is accepted like `gmail.com`, any
      other domain, `yahoo.com` for one, is refused. */
  lemma OnlyTwoProviders(local: string, domain: string)
    ensures IsValidEmail(local + "@outlook.com") <==> |local| > 0 && AllLocal(local)
    ensures domain != Gmail && domain != Outlook ==> !IsValidEmail(local + ['@'] + domain)
    ensures !IsValidEmail(local + "@yahoo.com")
  {
    assert local + "@outlook.com" == local + ['@'] + Outlook;
    ValidEmailParts(local, Outlook);
    ValidEmailParts(local, domain);
    assert local + "@yahoo.com" == local + ['@'] + "yahoo.com";
    ValidEmailParts(local, "yahoo.com");
  }

  /** The anchors: the local part starts the string and may not be empty, and
      nothing follows the domain, not even a newline (`$` without the `m` flag
      matches only at the very end). */
  lemma AnchorsHold(local: string, domain: string, t: string)
    ensures !IsValidEmail("@" + domain)
    ensures t != [] ==> !IsValidEmail(local + "@gmail.com" + t) && !IsValidEmail(local + "@outlook.com" + t)
  {
    assert "@" + domain == [] + ['@'] + domain;
    ValidEmailParts([], domain);
    var g, o := "gmail.com" + t, "outlook.com" + t;
    assert local + "@gmail.com" + t == local + ['@'] + g;
    assert local + "@outlook.com" + t == local + ['@'] + o;
    ValidEmailParts(local, g);
    ValidEmailParts(local, o);
    if t != [] {
      assert g != Gmail by { assert |g| > |Gmail|; }
      assert g != Outlook by { assert g[0] != Outlook[0]; }
      assert o != Outlook by { assert |o| > |Outlook|; }
      assert o != Gmail by { assert |o| > |Gmail|; }
    }
  }
}
