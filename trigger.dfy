/**
  The violation trigger of `process_frame`: a detection is a violation when its
  class name, upper-cased, contains the substring "NO". Upper-casing is modelled
  for ASCII letters only.
 */
module Trigger {

  /** ASCII upper-casing of one character; every other character is unchanged. */
  function UpperChar(c: char): (u: char)
    ensures 'a' <= c <= 'z' ==> 'A' <= u <= 'Z' && u as int + 32 == c as int
    ensures !('a' <= c <= 'z') ==> u == c
  {
    if 'a' <= c <= 'z' then (c as int - 32) as char else c
  }

  /** `s.upper()`, restricted to ASCII. */
  function Upper(s: string): (r: string)
    ensures |r| == |s|
    ensures forall i :: 0 <= i < |s| ==> r[i] == UpperChar(s[i])
  {
    seq(|s|, i requires 0 <= i < |s| => UpperChar(s[i]))
  }

  /** `needle` occurs in `hay` starting at index `i`. */
  predicate OccursAt(hay: string, needle: string, i: int) {
    0 <= i && i + |needle| <= |hay| && hay[i..i + |needle|] == needle
  }

  lemma OccursAtTail(hay: string, needle: string)
    requires |hay| > 0
    ensures forall i :: 0 <= i ==> (OccursAt(hay[1..], needle, i) <==> OccursAt(hay, needle, i + 1))
  {
    forall i | 0 <= i
      ensures OccursAt(hay[1..], needle, i) <==> OccursAt(hay, needle, i + 1)
    {
      if 0 <= i && i + |needle| <= |hay| - 1 {
        assert hay[1..][i..i + |needle|] == hay[i + 1..i + 1 + |needle|];
      }
    }
  }

  /** Python's `needle in hay` on strings, as a left-to-right search. */
  function Contains(hay: string, needle: string): (r: bool)
    ensures r <==> exists i :: OccursAt(hay, needle, i)
    decreases |hay|
  {
    if |needle| <= |hay| && hay[..|needle|] == needle then
      assert OccursAt(hay, needle, 0);
      true
    else if |hay| == 0 then
      false
    else
      OccursAtTail(hay, needle);
      assert !OccursAt(hay, needle, 0) by {
        if |needle| <= |hay| { assert hay[0..|needle|] == hay[..|needle|]; }
      }
      assert (exists i :: OccursAt(hay, needle, i)) ==> exists i :: OccursAt(hay[1..], needle, i) by {
        if exists i :: OccursAt(hay, needle, i) {
          var i :| OccursAt(hay, needle, i);
          assert OccursAt(hay[1..], needle, i - 1);
        }
      }
      Contains(hay[1..], needle)
  }

  predicate IsN(c: char) { c == 'N' || c == 'n' }
  predicate IsO(c: char) { c == 'O' || c == 'o' }

  /** At index `i` of `name` stands an `N` or `n` directly followed by an `O` or `o`. */
  predicate NoAt(name: string, i: int) {
    0 <= i < |name| - 1 && IsN(name[i]) && IsO(name[i + 1])
  }

  /**
    The test of app.py line 62: `"NO" in class_name.upper()`. A class name
    triggers exactly when, ignoring ASCII case, it has an `N` directly followed
    by an `O`.
   */
  function IsViolation(name: string): (r: bool)
    ensures r <==> exists i :: NoAt(name, i)
  {
    var found := Contains(Upper(name), "NO");
    assert found ==> exists i :: NoAt(name, i) by {
      if found { UpperHasNo(name); }
    }
    assert (exists i :: NoAt(name, i)) ==> found by {
      if exists i :: NoAt(name, i) {
        var i :| NoAt(name, i);
        NoInUpper(name, i);
      }
    }
    found
  }

  lemma UpperHasNo(name: string)
    requires Contains(Upper(name), "NO")
    ensures exists i :: NoAt(name, i)
  {
    var u := Upper(name);
    var i :| OccursAt(u, "NO", i);
    assert u[i] == u[i..i + 2][0] == 'N';
    assert u[i + 1] == u[i..i + 2][1] == 'O';
    assert NoAt(name, i);
  }

  lemma NoInUpper(name: string, i: int)
    requires NoAt(name, i)
    ensures Contains(Upper(name), "NO")
  {
    var u := Upper(name);
    assert u[i..i + 2] == [u[i], u[i + 1]] == "NO";
    assert OccursAt(u, "NO", i);
  }

  /** The negative classes of the label set trigger, and so do accidental matches. */
  lemma TriggeringExamples()
    ensures IsViolation("NO-Helmet") && IsViolation("NO-Mask") && IsViolation("no-vest")
    ensures IsViolation("NOTICE") && IsViolation("Snow")
  {
    assert NoAt("NO-Helmet", 0);
    assert NoAt("NO-Mask", 0);
    assert NoAt("no-vest", 0);
    assert NoAt("NOTICE", 0);
    assert NoAt("Snow", 1);
  }

  /** Labels without an `N` directly followed by an `O` do not trigger, whatever else they contain. */
  lemma NonTriggeringExamples()
    ensures !IsViolation("Person") && !IsViolation("Hardhat") && !IsViolation("ON") && !IsViolation("")
  {
    PersonDoesNotTrigger();
    HardhatDoesNotTrigger();
    NotTriggering("ON");
    NotTriggering("");
  }

  lemma PersonDoesNotTrigger()
    ensures !IsViolation("Person")
  {
    NotTriggering("Person");
  }

  lemma HardhatDoesNotTrigger()
    ensures !IsViolation("Hardhat")
  {
    NotTriggering("Hardhat");
  }

  /** A name none of whose positions holds an `N`/`n` followed by an `O`/`o` does not trigger. */
  lemma NotTriggering(name: string)
    requires forall i :: 0 <= i < |name| - 1 ==> !(IsN(name[i]) && IsO(name[i + 1]))
    ensures !IsViolation(name)
  {
  }
}
