/** Character and string helpers: ASCII lower-casing, suffix tests, and
    Python's `sep.join(parts)` / `s.split(sep)` for a one-character separator. */
module Text {

  /** Lower-cases an ASCII capital letter and leaves every other character alone. */
  function LowerChar(c: char): (r: char)
    ensures 'A' <= c <= 'Z' ==> 'a' <= r <= 'z'
    ensures !('A' <= c <= 'Z') ==> r == c
  {
    if 'A' <= c <= 'Z' then (c as int - 'A' as int + 'a' as int) as char else c
  }

  function Lower(s: string): (r: string)
    ensures |r| == |s|
    ensures forall i :: 0 <= i < |s| ==> r[i] == LowerChar(s[i])
  {
    seq(|s|, i requires 0 <= i < |s| => LowerChar(s[i]))
  }

  /** Text without capital letters is its own lower-case form. */
  lemma LowerNoCapitals(s: string)
    requires forall i :: 0 <= i < |s| ==> !('A' <= s[i] <= 'Z')
    ensures Lower(s) == s
  {
  }

  /** Lower-casing commutes with taking the last `k` characters. */
  lemma LowerSuffix(s: string, k: nat)
    ensures k <= |s| ==> Lower(s[|s| - k..]) == Lower(s)[|s| - k..]
  {
  }

  predicate EndsWith(s: string, suffix: string) {
    |suffix| <= |s| && s[|s| - |suffix|..] == suffix
  }

  /** `sep.join(parts)`: the parts with one separator between neighbours.
      Splitting the result on `sep` gives the parts back when none holds `sep`. */
  function Join(parts: seq<string>, sep: char): (r: string)
    ensures |parts| >= 1 && (forall i :: 0 <= i < |parts| ==> sep !in parts[i]) ==> Split(r, sep) == parts
    decreases |parts|
  {
    if |parts| == 0 then ""
    else if |parts| == 1 then
      SplitPlain(parts[0], sep);
      parts[0]
    else
      var rest := Join(parts[1..], sep);
      JoinStep(parts, rest, sep);
      parts[0] + [sep] + rest
  }

  /** `s.split(sep)`: the maximal pieces of `s` between separators; never empty. */
  function Split(s: string, sep: char): (r: seq<string>)
    ensures |r| >= 1
    decreases |s|
  {
    if |s| == 0 then [""]
    else
      var rest := Split(s[1..], sep);
      if s[0] == sep then [""] + rest
      else [[s[0]] + rest[0]] + rest[1..]
  }

  lemma JoinThree(a: string, b: string, c: string, sep: char)
    ensures Join([a, b, c], sep) == a + [sep] + b + [sep] + c
  {
    assert [a, b, c][1..] == [b, c];
    assert [b, c][1..] == [c];
    assert Join([b, c], sep) == b + [sep] + c;
  }

  /** A character found in none of the parts and different from the separator
      is not in the joined text. */
  lemma {:induction false} JoinAvoids(parts: seq<string>, sep: char, c: char)
    requires c != sep
    requires forall i :: 0 <= i < |parts| ==> c !in parts[i]
    ensures c !in Join(parts, sep)
    decreases |parts|
  {
    if |parts| > 1 {
      JoinAvoids(parts[1..], sep, c);
      assert Join(parts, sep) == parts[0] + ([sep] + Join(parts[1..], sep));
    }
  }

  /** Splitting a string with no separator in front of the rest glues it to the first piece. */
  lemma {:induction false} SplitPrefix(a: string, t: string, sep: char)
    requires sep !in a
    ensures Split(a + t, sep) == [a + Split(t, sep)[0]] + Split(t, sep)[1..]
    decreases |a|
  {
    if |a| == 0 {
      var r := Split(t, sep);
      assert a + t == t;
      assert a + r[0] == r[0];
      assert r == [r[0]] + r[1..];
    } else {
      assert (a + t)[1..] == a[1..] + t;
      SplitPrefix(a[1..], t, sep);
      assert [a[0]] + (a[1..] + Split(t, sep)[0]) == a + Split(t, sep)[0];
    }
  }

  /** Text without the separator splits into itself alone. */
  lemma SplitPlain(a: string, sep: char)
    ensures sep !in a ==> Split(a, sep) == [a]
  {
    if sep !in a {
      SplitPrefix(a, "", sep);
      assert a + "" == a;
    }
  }

  /** One step of splitting a join: a separator-free first part, a separator,
      and a rest that splits into the remaining parts. */
  lemma JoinStep(parts: seq<string>, rest: string, sep: char)
    requires |parts| >= 2
    requires (forall i :: 0 <= i < |parts[1..]| ==> sep !in parts[1..][i]) ==> Split(rest, sep) == parts[1..]
    ensures (forall i :: 0 <= i < |parts| ==> sep !in parts[i]) ==> Split(parts[0] + [sep] + rest, sep) == parts
  {
    if forall i :: 0 <= i < |parts| ==> sep !in parts[i] {
      assert forall i :: 0 <= i < |parts[1..]| ==> parts[1..][i] == parts[i + 1];
      var tail := [sep] + rest;
      assert parts[0] + [sep] + rest == parts[0] + tail;
      SplitPrefix(parts[0], tail, sep);
      assert tail[1..] == rest;
      assert Split(tail, sep) == [""] + parts[1..];
      assert parts[0] + "" == parts[0];
      assert parts == [parts[0]] + parts[1..];
    }
  }

  /** Joining the pieces of a split gives back the original text, whatever it holds. */
  lemma {:induction false} JoinSplit(s: string, sep: char)
    ensures Join(Split(s, sep), sep) == s
    decreases |s|
  {
    if |s| > 0 {
      var rest := Split(s[1..], sep);
      JoinSplit(s[1..], sep);
      if s[0] == sep {
        assert Split(s, sep) == [""] + rest;
        assert ([""] + rest)[1..] == rest;
        assert s == [sep] + s[1..];
      } else {
        var r := [[s[0]] + rest[0]] + rest[1..];
        assert Split(s, sep) == r;
        if |rest| == 1 {
          assert s == [s[0]] + s[1..];
        } else {
          assert r[1..] == rest[1..];
          assert Join(rest, sep) == rest[0] + [sep] + Join(rest[1..], sep);
          assert s == [s[0]] + s[1..];
        }
      }
    }
  }
}
