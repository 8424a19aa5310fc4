/** A small regular-expression language, with the meaning that JavaScript's
    `RegExp.prototype.test` gives to a pattern that has no flags, no
    lookarounds and no back-references: a backtracking matcher explores every
    alternative, so `test` succeeds exactly when some substring allowed by the
    anchors belongs to the language of the pattern. */
module Regex {

  /** An inclusive range of a bracket class: `a-z`, or a single character `.` as `.-.`. */
  datatype Range = Range(lo: char, hi: char)

  datatype Re =
    | Lit(c: char)               // one literal character (an escaped `\.` included)
    | Class(ranges: seq<Range>)  // a bracket class `[...]`
    | Cat(left: Re, right: Re)   // concatenation
    | Alt(left: Re, right: Re)   // alternation `|` inside a group
    | Plus(body: Re)             // one or more repetitions, `+`

  /** A pattern together with its anchors: `^` in front and `$` at the end. */
  datatype Pattern = Pattern(body: Re, atStart: bool, atEnd: bool)

  predicate InRanges(c: char, rs: seq<Range>)
  {
    |rs| > 0 && ((rs[0].lo <= c <= rs[0].hi) || InRanges(c, rs[1..]))
  }

  /** The language of `r`. A repetition splits off non-empty pieces only;
      empty pieces add no string to the language of `+`. */
  ghost predicate Matches(r: Re, s: string)
    decreases r, |s|, 1
  {
    match r
    case Lit(c) => s == [c]
    case Class(rs) => |s| == 1 && InRanges(s[0], rs)
    case Cat(a, b) => CatSplits(a, b, s)
    case Alt(a, b) => Matches(a, s) || Matches(b, s)
    case Plus(a) => Matches(a, s) || PlusSplits(a, s)
  }

  /** `s` is a string of `a` followed by a string of `b`. */
  ghost predicate CatSplits(a: Re, b: Re, s: string)
    decreases Cat(a, b), |s|, 0
  {
    exists k :: 0 <= k <= |s| && Matches(a, s[..k]) && Matches(b, s[k..])
  }

  /** `s` is a non-empty string of `a` followed by a shorter non-empty string of `a+`. */
  ghost predicate PlusSplits(a: Re, s: string)
    decreases Plus(a), |s|, 0
  {
    exists k :: 0 < k < |s| && Matches(a, s[..k]) && Matches(Plus(a), s[k..])
  }

  /** `p.test(s)`: some substring of `s` that the anchors allow is in the language. */
  ghost predicate Test(p: Pattern, s: string): (r: bool)
    ensures Matches(p.body, s) ==> r
  {
    assert s[0..|s|] == s;
    exists i, j :: 0 <= i <= j <= |s| && (p.atStart ==> i == 0) && (p.atEnd ==> j == |s|)
                   && Matches(p.body, s[i..j])
  }

  /** A pattern anchored at both ends is tested against the whole string. */
  lemma AnchoredTest(p: Pattern, s: string)
    requires p.atStart && p.atEnd
    ensures Test(p, s) <==> Matches(p.body, s)
  {
    assert s[0..|s|] == s;
  }

  lemma CatIntro(a: Re, b: Re, s: string, k: nat)
    requires k <= |s| && Matches(a, s[..k]) && Matches(b, s[k..])
    ensures Matches(Cat(a, b), s)
  {
    assert CatSplits(a, b, s);
  }

  lemma CatElim(a: Re, b: Re, s: string) returns (k: nat)
    requires Matches(Cat(a, b), s)
    ensures k <= |s| && Matches(a, s[..k]) && Matches(b, s[k..])
  {
    assert CatSplits(a, b, s);
    k :| 0 <= k <= |s| && Matches(a, s[..k]) && Matches(b, s[k..]);
  }

  /** The literal word `w` (as `gmail\.com`): a chain of single characters. */
  function Word(w: string): (r: Re)
    requires |w| > 0
    decreases |w|
  {
    if |w| == 1 then Lit(w[0]) else Cat(Lit(w[0]), Word(w[1..]))
  }

  /** A literal in front of `r` takes exactly the first character. */
  lemma CatLitMatches(c: char, r: Re, u: string)
    ensures Matches(Cat(Lit(c), r), u) <==> |u| > 0 && u[0] == c && Matches(r, u[1..])
  {
    if Matches(Cat(Lit(c), r), u) {
      var k := CatElim(Lit(c), r, u);
      assert |u[..k]| == 1;
    }
    if |u| > 0 && u[0] == c && Matches(r, u[1..]) {
      assert u[..1] == [c];
      CatIntro(Lit(c), r, u, 1);
    }
  }

  /** A literal word matches exactly itself: no case folding, nothing more, nothing less. */
  lemma {:induction false} WordMatches(w: string, s: string)
    requires |w| > 0
    ensures Matches(Word(w), s) <==> s == w
    decreases |w|
  {
    if |w| > 1 {
      CatLitMatches(w[0], Word(w[1..]), s);
      if |s| > 0 {
        WordMatches(w[1..], s[1..]);
        assert s == [s[0]] + s[1..];
      }
    }
  }

  /** `[...]+` matches exactly the non-empty strings drawn from the class. */
  lemma {:induction false} PlusClassMatches(rs: seq<Range>, s: string)
    ensures Matches(Plus(Class(rs)), s) <==> |s| > 0 && forall i | 0 <= i < |s| :: InRanges(s[i], rs)
    decreases |s|
  {
    var r := Plus(Class(rs));
    if |s| > 1 {
      PlusClassMatches(rs, s[1..]);
      assert !Matches(Class(rs), s);
      if Matches(r, s) {
        assert PlusSplits(Class(rs), s);
        var k :| 0 < k < |s| && Matches(Class(rs), s[..k]) && Matches(r, s[k..]);
        assert |s[..k]| == 1;
        forall i | 0 <= i < |s| ensures InRanges(s[i], rs) {
          if i > 0 { assert s[i] == s[1..][i - 1]; }
        }
      }
      if forall i | 0 <= i < |s| :: InRanges(s[i], rs) {
        forall i | 0 <= i < |s[1..]| ensures InRanges(s[1..][i], rs) {
          assert s[1..][i] == s[i + 1];
        }
        assert Matches(Class(rs), s[..1]);
        assert PlusSplits(Class(rs), s);
      }
    }
  }
}
