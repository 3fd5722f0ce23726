/** When two names joined by a separator cannot be told apart. */
module Separators {
  function Joined(first: string, separator: char, second: string): string {
    first + [separator] + second
  }

  /** The longer first name and the longer second name share a middle part that the separators hide. */
  ghost predicate Shifted(separator: char, first: string, second: string, first': string, second': string) {
    exists m :: first' == Joined(first, separator, m) && second == Joined(m, separator, second')
  }

  lemma ShiftedBy(separator: char, a: string, b: string, a': string, b': string)
    requires Joined(a, separator, b) == Joined(a', separator, b') && |a| < |a'|
    ensures Shifted(separator, a, b, a', b')
  {
    var s, m := Joined(a, separator, b), a'[|a| + 1..];
    assert a' == s[..|a'|] && a == s[..|a|] && s[|a|] == separator && s[|a'|] == separator;
    assert a' == Joined(a, separator, m);
    assert b == s[|a| + 1..] && b' == s[|a'| + 1..];
    assert b == Joined(m, separator, b');
  }

  lemma ShiftedMeets(separator: char, a: string, b: string, a': string, b': string)
    requires Shifted(separator, a, b, a', b')
    ensures Joined(a, separator, b) == Joined(a', separator, b')
  {
    var m :| a' == Joined(a, separator, m) && b == Joined(m, separator, b');
    assert Joined(a, separator, Joined(m, separator, b')) == Joined(Joined(a, separator, m), separator, b');
  }

  /** Two joined names meet exactly when their parts are equal or shifted. */
  lemma JoinedMeetIff(separator: char, a: string, b: string, a': string, b': string)
    ensures Joined(a, separator, b) == Joined(a', separator, b')
            <==> (a == a' && b == b') || Shifted(separator, a, b, a', b') || Shifted(separator, a', b', a, b)
  {
    var s, s' := Joined(a, separator, b), Joined(a', separator, b');
    if s == s' {
      if |a| < |a'| {
        ShiftedBy(separator, a, b, a', b');
      } else if |a'| < |a| {
        ShiftedBy(separator, a', b', a, b);
      } else {
        assert a == s[..|a|] && b == s[|a| + 1..] && a' == s'[..|a'|] && b' == s'[|a'| + 1..];
      }
    }
    if Shifted(separator, a, b, a', b') { ShiftedMeets(separator, a, b, a', b'); }
    if Shifted(separator, a', b', a, b) { ShiftedMeets(separator, a', b', a, b); }
  }

  /** A separator that the second parts do not hold tells the parts apart. */
  lemma LastPart(separator: char, a: string, b: string, a': string, b': string)
    requires separator !in b && separator !in b'
    ensures Joined(a, separator, b) == Joined(a', separator, b') <==> a == a' && b == b'
  {
    JoinedMeetIff(separator, a, b, a', b');
  }

  /** So does one that the first parts do not hold. */
  lemma FirstPart(separator: char, a: string, b: string, a': string, b': string)
    requires separator !in a && separator !in a'
    ensures Joined(a, separator, b) == Joined(a', separator, b') <==> a == a' && b == b'
  {
    JoinedMeetIff(separator, a, b, a', b');
  }
}
