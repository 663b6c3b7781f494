/** Matching an incoming direct message against the ordered auto-response
    table: the message is lower-cased and each trigger is tried, in table
    order, as a substring of it. */
module Triggers {
  import opened Wrappers

  predicate IsUpper(c: char) {
    'A' <= c <= 'Z'
  }

  /** No character of `s` is an upper-case ASCII letter. */
  predicate IsLowerCase(s: string) {
    forall i :: 0 <= i < |s| ==> !IsUpper(s[i])
  }

  /** ASCII `str.lower()` of one character: an upper-case letter becomes the
      same letter in lower case, every other character stays as it is. */
  function LowerChar(c: char): (r: char)
    ensures !IsUpper(r)
    ensures IsUpper(c) ==> 'a' <= r <= 'z' && r as int - 'a' as int == c as int - 'A' as int
    ensures !IsUpper(c) ==> r == c
  {
    if IsUpper(c) then (c as int + 32) as char else c
  }

  /** `s.lower()`, character by character. */
  function Lower(s: string): (r: string)
    ensures |r| == |s| && IsLowerCase(r)
    ensures forall i :: 0 <= i < |s| ==> r[i] == LowerChar(s[i])
  {
    seq(|s|, i requires 0 <= i < |s| => LowerChar(s[i]))
  }

  /** Lower-casing leaves lower-case text as it is, so doing it twice is
      doing it once. */
  lemma LowerKeeps(s: string)
    requires IsLowerCase(s)
    ensures Lower(s) == s
  {
    assert forall i :: 0 <= i < |s| ==> Lower(s)[i] == s[i];
  }

  lemma LowerIdempotent(s: string)
    ensures Lower(Lower(s)) == Lower(s)
  {
    LowerKeeps(Lower(s));
  }

  /** Two texts of the same length that differ at most in the case of ASCII letters. */
  predicate SameIgnoringCase(a: string, b: string) {
    |a| == |b| && forall i :: 0 <= i < |a| ==> LowerChar(a[i]) == LowerChar(b[i])
  }

  function Window(s: string, i: nat, n: nat): string
    requires i + n <= |s|
  {
    s[i..i + n]
  }

  /** Python's `t in s` for strings; the empty trigger occurs in every message. */
  function Contains(s: string, t: string): bool
    decreases |s|
  {
    if |t| > |s| then false
    else s[..|t|] == t || (|s| > 0 && Contains(s[1..], t))
  }

  /** `Contains` is "occurs at some position", in both directions. */
  lemma {:induction false} ContainsAt(s: string, t: string)
    ensures Contains(s, t) <==> exists i :: 0 <= i && i + |t| <= |s| && Window(s, i, |t|) == t
    decreases |s|
  {
    if |t| <= |s| {
      if s[..|t|] == t {
        assert Window(s, 0, |t|) == t;
      } else {
        assert |s| > 0 && Contains(s, t) == Contains(s[1..], t);
        assert Window(s, 0, |t|) != t;
        ContainsAt(s[1..], t);
        if Contains(s[1..], t) {
          var i :| 0 <= i && i + |t| <= |s| - 1 && Window(s[1..], i, |t|) == t;
          WindowShift(s, i, |t|);
        } else {
          forall i | 1 <= i && i + |t| <= |s|
            ensures Window(s, i, |t|) != t
          {
            WindowShift(s, i - 1, |t|);
          }
        }
      }
    }
  }

  /** A window of `s[1..]` is the window of `s` one position further on. */
  lemma WindowShift(s: string, i: nat, n: nat)
    requires i + n < |s|
    ensures Window(s[1..], i, n) == Window(s, i + 1, n)
  {
    assert s[1..][i..i + n] == s[i + 1..i + 1 + n];
  }

  /** A window of the lower-cased text is the lower-cased window. */
  lemma WindowLower(s: string, i: nat, n: nat)
    requires i + n <= |s|
    ensures Window(Lower(s), i, n) == Lower(Window(s, i, n))
  {
    assert forall j :: 0 <= j < n ==> Window(Lower(s), i, n)[j] == LowerChar(s[i + j]);
  }

  /** A lower-case text equals the lower-cased `w` exactly when `w` is the
      text up to case. */
  lemma LowerEquals(w: string, t: string)
    requires IsLowerCase(t)
    ensures Lower(w) == t <==> SameIgnoringCase(w, t)
  {
    LowerKeeps(t);
    if SameIgnoringCase(w, t) {
      assert forall i :: 0 <= i < |w| ==> Lower(w)[i] == t[i];
    }
    if Lower(w) == t {
      assert forall i :: 0 <= i < |w| ==> LowerChar(w[i]) == t[i] == LowerChar(t[i]);
    }
  }

  /** A lower-case trigger occurs in the lower-cased message exactly when
      it occurs in the message ignoring the case of ASCII letters. */
  lemma TriggerMatch(s: string, t: string)
    requires IsLowerCase(t)
    ensures Contains(Lower(s), t) <==>
      exists i :: 0 <= i && i + |t| <= |s| && SameIgnoringCase(Window(s, i, |t|), t)
  {
    ContainsAt(Lower(s), t);
    forall i | 0 <= i && i + |t| <= |s|
      ensures Window(Lower(s), i, |t|) == t <==> SameIgnoringCase(Window(s, i, |t|), t)
    {
      WindowLower(s, i, |t|);
      LowerEquals(Window(s, i, |t|), t);
    }
  }

  /** A trigger holding an upper-case ASCII letter never occurs in a
      lower-cased message. */
  lemma UpperTriggerNeverMatches(s: string, t: string)
    requires !IsLowerCase(t)
    ensures !Contains(Lower(s), t)
  {
    ContainsAt(Lower(s), t);
    var j :| 0 <= j < |t| && IsUpper(t[j]);
    forall i | 0 <= i && i + |t| <= |s| ensures Window(Lower(s), i, |t|) != t {
      assert !IsUpper(Window(Lower(s), i, |t|)[j]);
    }
  }

  /** An entry of the auto-response table. */
  datatype Rule = Rule(trigger: string, response: string)

  /** Whether sending the response of the rule at index `j` would succeed;
      a position the oracle does not cover counts as a failed send. */
  predicate SendOk(sendOk: seq<bool>, j: nat) {
    j < |sendOk| && sendOk[j]
  }

  predicate Answers(low: string, rules: seq<Rule>, sendOk: seq<bool>, j: nat)
    requires j < |rules|
  {
    Contains(low, rules[j].trigger) && SendOk(sendOk, j)
  }

  /** The rule, from index `from` on, whose response actually gets sent:
      the first whose trigger occurs in `low` and whose send succeeds; a
      failed send falls through to the next matching trigger. */
  function FirstAnswer(low: string, rules: seq<Rule>, sendOk: seq<bool>, from: nat): (r: Option<nat>)
    decreases |rules| - from
  {
    if from >= |rules| then None
    else if Answers(low, rules, sendOk, from) then Some(from)
    else FirstAnswer(low, rules, sendOk, from + 1)
  }

  /** `FirstAnswer` picks a rule that matches and was sent, and no earlier
      rule both matched and was sent; it picks nothing exactly when no rule
      from `from` on does. */
  lemma {:induction false} FirstAnswerSpec(low: string, rules: seq<Rule>, sendOk: seq<bool>, from: nat)
    ensures var r := FirstAnswer(low, rules, sendOk, from);
      && (r.Some? ==> from <= r.value < |rules| && Answers(low, rules, sendOk, r.value)
                      && forall i :: from <= i < r.value ==> !Answers(low, rules, sendOk, i))
      && (r.None? <==> forall i :: from <= i < |rules| ==> !Answers(low, rules, sendOk, i))
    decreases |rules| - from
  {
    if from < |rules| && !Answers(low, rules, sendOk, from) {
      FirstAnswerSpec(low, rules, sendOk, from + 1);
    }
  }
}
