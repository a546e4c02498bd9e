/**
 * Wildcard classification-code patterns: a '?' stands for any single digit. The expansion is
 * the fixed-point loop of filter_by_code, which replaces the first '?' of every candidate by each
 * of the ten digits until no candidate changes.
 */
module CodePattern {
  import opened Base
  import opened Decimal

  const Wildcard: char := '?'

  function WildcardCount(s: string): nat
  {
    multiset(s)[Wildcard]
  }

  function Pow10(k: nat): (p: nat)
    ensures p >= 1
  {
    if k == 0 then 1 else 10 * Pow10(k - 1)
  }

  /** s is what pattern becomes when each '?' is replaced by some digit. */
  predicate Matches(pattern: string, s: string)
  {
    && |s| == |pattern|
    && forall i :: 0 <= i < |pattern| ==>
         if pattern[i] == Wildcard then IsDigit(s[i]) else s[i] == pattern[i]
  }

  /** code.index('?'): the position of the first wildcard. */
  function FirstWildcard(s: string): (i: nat)
    requires Wildcard in s
    ensures i < |s| && s[i] == Wildcard
    ensures forall j :: 0 <= j < i ==> s[j] != Wildcard
  {
    if s[0] == Wildcard then 0 else 1 + FirstWildcard(s[1..])
  }

  /** code[:ind] + str(d) + code[ind+1:] */
  function Substitute(code: string, ind: nat, d: nat): string
    requires ind < |code| && d < 10
  {
    code[..ind] + [DigitChar(d)] + code[ind + 1..]
  }

  /** What one round of the loop makes of one candidate. */
  function Expansions(code: string): seq<string>
  {
    if Wildcard in code then
      var ind := FirstWildcard(code);
      seq(10, d requires 0 <= d < 10 => Substitute(code, ind, d))
    else [code]
  }

  /** new_codes: the concatenation of the expansions of every candidate, in order. */
  function ExpandAll(codes: seq<string>): seq<string>
  {
    if codes == [] then [] else ExpandAll(codes[..|codes| - 1]) + Expansions(codes[|codes| - 1])
  }

  /** The candidates after k rounds of the loop, starting from codes. */
  function Rounds(codes: seq<string>, k: nat): seq<string>
  {
    if k == 0 then codes else ExpandAll(Rounds(codes, k - 1))
  }

  /** The candidates the loop ends with, in its order: one round per wildcard of the pattern. */
  function Expansion(pattern: string): seq<string>
  {
    Rounds([pattern], WildcardCount(pattern))
  }

  /**
   * The expansion loop of filter_by_code: each round expands every candidate, until a round
   * changes nothing. It ends with the candidates of Expansion, about which ExpansionFacts says
   * that no wildcard is left, that they are exactly the strings the pattern matches, 10 to the
   * power of the number of wildcards of them, and that a plain pattern yields itself alone.
   */
  method Expand(pattern: string) returns (codes: seq<string>)
    ensures codes == Expansion(pattern)
    ensures forall c :: c in codes ==> Wildcard !in c
    ensures forall s :: s in codes <==> Matches(pattern, s)
    ensures |codes| == Pow10(WildcardCount(pattern))
    ensures Wildcard !in pattern ==> codes == [pattern]
  {
    codes := [pattern];
    ghost var done: nat := 0;
    while true
      invariant done <= WildcardCount(pattern) && codes == Rounds([pattern], done)
      decreases WildcardCount(pattern) - done
    {
      var newCodes := [];
      for j := 0 to |codes|
        invariant newCodes == ExpandAll(codes[..j])
      {
        var code := codes[j];
        assert codes[..j + 1] == codes[..j] + [code];
        if Wildcard in code {
          var ind := FirstWildcard(code);
          newCodes := newCodes + seq(10, d requires 0 <= d < 10 => Substitute(code, ind, d));
        } else {
          newCodes := newCodes + [code];
        }
      }
      assert codes[..|codes|] == codes;
      RoundsFacts(pattern, done, codes);
      if done == WildcardCount(pattern) {
        forall c | c in codes ensures Wildcard !in c { WildcardCountZero(c); }
        ExpandAllFixed(codes);
      } else {
        ExpandAllCount(codes, WildcardCount(pattern) - done);
        assert |newCodes| != |codes|;
      }
      if newCodes == codes {
        break;
      }
      codes := newCodes;
      done := done + 1;
    }
    ExpansionFacts(pattern);
  }

  /**
   * After r rounds, r at most the number of wildcards: 10^r candidates, each with r wildcards
   * fewer than the pattern, matching together exactly what the pattern matches.
   */
  lemma {:induction false} RoundsFacts(pattern: string, r: nat, codes: seq<string>)
    requires r <= WildcardCount(pattern) && codes == Rounds([pattern], r)
    ensures |codes| == Pow10(r)
    ensures forall c :: c in codes ==> WildcardCount(c) + r == WildcardCount(pattern)
    ensures forall s :: Matches(pattern, s) <==> exists c :: c in codes && Matches(c, s)
  {
    if r == 0 {
      forall s | Matches(pattern, s) ensures exists c :: c in codes && Matches(c, s) {
        assert pattern in codes;
      }
    } else {
      var prev := Rounds([pattern], r - 1);
      RoundsFacts(pattern, r - 1, prev);
      assert codes == ExpandAll(prev);
      ExpandAllCount(prev, WildcardCount(pattern) - (r - 1));
      forall s ensures Matches(pattern, s) <==> exists c :: c in codes && Matches(c, s) {
        ExpandAllMatch(prev, s);
      }
    }
  }

  /**
   * The final candidates hold no wildcard, are exactly the strings the pattern matches, number
   * 10 to the power of its wildcards, and are the pattern alone when it has no wildcard.
   */
  lemma ExpansionFacts(pattern: string)
    ensures forall c :: c in Expansion(pattern) ==> Wildcard !in c
    ensures forall s :: s in Expansion(pattern) <==> Matches(pattern, s)
    ensures |Expansion(pattern)| == Pow10(WildcardCount(pattern))
    ensures Wildcard !in pattern ==> Expansion(pattern) == [pattern]
  {
    var codes := Expansion(pattern);
    RoundsFacts(pattern, WildcardCount(pattern), codes);
    forall c | c in codes ensures Wildcard !in c { WildcardCountZero(c); }
    forall s ensures s in codes <==> Matches(pattern, s) {
      if s in codes {
        NoWildcardMatches(s, s);
      }
      if Matches(pattern, s) {
        var c :| c in codes && Matches(c, s);
        NoWildcardMatches(c, s);
      }
    }
    WildcardCountZero(pattern);
  }

  /** A candidate without a wildcard matches itself only. */
  lemma NoWildcardMatches(c: string, s: string)
    requires Wildcard !in c
    ensures Matches(c, s) <==> s == c
  {
    if Matches(c, s) {
      assert forall i :: 0 <= i < |c| ==> s[i] == c[i];
    }
  }

  /** Replacing the first wildcard by each digit in turn loses no match and adds none. */
  lemma ExpansionsMatch(code: string, s: string)
    ensures (exists e :: e in Expansions(code) && Matches(e, s)) <==> Matches(code, s)
  {
    if Wildcard in code {
      var ind := FirstWildcard(code);
      if Matches(code, s) {
        var d := DigitValue(s[ind]);
        var e := Substitute(code, ind, d);
        assert Expansions(code)[d] == e;
        assert forall i :: 0 <= i < |e| ==> e[i] == (if i == ind then DigitChar(d) else code[i]);
        assert Matches(e, s) && e in Expansions(code);
      }
      if e :| e in Expansions(code) && Matches(e, s) {
        var d :| 0 <= d < 10 && Expansions(code)[d] == e;
        assert |e| == |code|;
        assert forall i :: 0 <= i < |e| ==> e[i] == (if i == ind then DigitChar(d) else code[i]);
        forall i | 0 <= i < |code|
          ensures if code[i] == Wildcard then IsDigit(s[i]) else s[i] == code[i]
        {
          if i == ind {
            assert e[i] == DigitChar(d) && e[i] != Wildcard;
            assert s[i] == e[i];
          } else {
            assert e[i] == code[i];
          }
        }
        assert Matches(code, s);
      }
    }
  }

  /** One round of the loop keeps the set of matched strings. */
  lemma {:induction false} ExpandAllMatch(codes: seq<string>, s: string)
    ensures (exists e :: e in ExpandAll(codes) && Matches(e, s)) <==> (exists c :: c in codes && Matches(c, s))
  {
    if codes != [] {
      var pre, last := codes[..|codes| - 1], codes[|codes| - 1];
      ExpandAllMatch(pre, s);
      ExpansionsMatch(last, s);
      assert codes == pre + [last];
      if e :| e in ExpandAll(codes) && Matches(e, s) {
        if e in ExpandAll(pre) {
          var c :| c in pre && Matches(c, s);
          assert c in codes;
        } else {
          assert e in Expansions(last);
        }
      }
      if c :| c in codes && Matches(c, s) {
        if c in pre {
          var e :| e in ExpandAll(pre) && Matches(e, s);
          assert e in ExpandAll(codes);
        } else {
          assert c == last;
          var e :| e in Expansions(last) && Matches(e, s);
          assert e in ExpandAll(codes);
        }
      }
    }
  }

  lemma WildcardCountZero(s: string)
    ensures WildcardCount(s) == 0 <==> Wildcard !in s
  {
    assert Wildcard in multiset(s) <==> Wildcard in s;
  }

  /** Without wildcards a round changes nothing: the loop's exit condition. */
  lemma {:induction false} ExpandAllFixed(codes: seq<string>)
    requires forall c :: c in codes ==> Wildcard !in c
    ensures ExpandAll(codes) == codes
  {
    if codes != [] {
      var pre, last := codes[..|codes| - 1], codes[|codes| - 1];
      assert codes == pre + [last];
      ExpandAllFixed(pre);
    }
  }

  lemma SubstituteCount(code: string, ind: nat, d: nat)
    requires ind < |code| && d < 10 && code[ind] == Wildcard
    ensures WildcardCount(Substitute(code, ind, d)) + 1 == WildcardCount(code)
  {
    assert code == code[..ind] + [Wildcard] + code[ind + 1..];
    assert multiset(code) == multiset(code[..ind]) + multiset{Wildcard} + multiset(code[ind + 1..]);
    assert multiset(Substitute(code, ind, d))
        == multiset(code[..ind]) + multiset{DigitChar(d)} + multiset(code[ind + 1..]);
  }

  /** With k > 0 wildcards in every candidate a round multiplies the candidates by ten, each with one wildcard less. */
  lemma {:induction false} ExpandAllCount(codes: seq<string>, k: nat)
    requires k > 0 && forall c :: c in codes ==> WildcardCount(c) == k
    ensures |ExpandAll(codes)| == 10 * |codes|
    ensures forall e :: e in ExpandAll(codes) ==> WildcardCount(e) == k - 1
  {
    if codes != [] {
      var pre, last := codes[..|codes| - 1], codes[|codes| - 1];
      assert codes == pre + [last];
      ExpandAllCount(pre, k);
      assert last in codes;
      WildcardCountZero(last);
      var ind := FirstWildcard(last);
      forall d | 0 <= d < 10 ensures WildcardCount(Expansions(last)[d]) == k - 1 {
        SubstituteCount(last, ind, d);
      }
    }
  }

  /** The pattern selects an integer code when some string it matches reads as that code. */
  ghost predicate Selects(pattern: string, code: int)
  {
    exists s :: Matches(pattern, s) && ParseInt(s) == Some(code)
  }

  /** "???" selects exactly the codes 0 to 999. */
  lemma AllWildcardsSelect(code: int)
    ensures Selects("???", code) <==> 0 <= code <= 999
  {
    if 0 <= code <= 999 {
      var s := [DigitChar(code / 100), DigitChar(code / 10 % 10), DigitChar(code % 10)];
      ThreeDigits(s);
      assert Matches("???", s);
    }
    if Selects("???", code) {
      var s :| Matches("???", s) && ParseInt(s) == Some(code);
      assert AllDigits(s);
      ThreeDigits(s);
    }
  }

  /** A pattern without wildcards selects the one code it reads as. */
  lemma PlainPatternSelects(pattern: string, code: int)
    requires Wildcard !in pattern
    ensures Selects(pattern, code) <==> ParseInt(pattern) == Some(code)
  {
    NoWildcardMatches(pattern, pattern);
    if Selects(pattern, code) {
      var s :| Matches(pattern, s) && ParseInt(s) == Some(code);
      NoWildcardMatches(pattern, s);
    }
  }
}
