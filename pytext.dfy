/**
 * The two Python string built-ins the schema summary relies on:
 * `str.title()` and `str.replace(old, new)`, for the cases it uses.
 * Characters are treated as ASCII: a character is "cased" exactly when
 * it is an ASCII letter.
 */
module PyText {

  predicate IsCased(c: char)
  {
    'a' <= c <= 'z' || 'A' <= c <= 'Z'
  }

  function Upper(c: char): (u: char)
    ensures IsCased(c) <==> IsCased(u)
    ensures !('a' <= u <= 'z')
  {
    if 'a' <= c <= 'z' then (c as int - 32) as char else c
  }

  function Lower(c: char): (l: char)
    ensures IsCased(c) <==> IsCased(l)
    ensures !('A' <= l <= 'Z')
  {
    if 'A' <= c <= 'Z' then (c as int + 32) as char else c
  }

  /** `str.title()` continued after a character that was (or was not) cased. */
  function TitleAfter(s: string, prevCased: bool): (r: string)
    ensures |r| == |s|
    ensures forall i :: 0 <= i < |s| ==>
      r[i] == if (if i == 0 then prevCased else IsCased(s[i - 1])) then Lower(s[i]) else Upper(s[i])
  {
    if s == [] then []
    else [if prevCased then Lower(s[0]) else Upper(s[0])] + TitleAfter(s[1..], IsCased(s[0]))
  }

  /**
   * `str.title()`: a letter is upper-cased when it starts a word (it is first,
   * or follows a character that is not a letter) and lower-cased otherwise.
   */
  function TitleCase(s: string): (r: string)
    ensures |r| == |s|
    ensures forall i :: 0 <= i < |s| ==>
      r[i] == if i > 0 && IsCased(s[i - 1]) then Lower(s[i]) else Upper(s[i])
  {
    TitleAfter(s, false)
  }

  /** `s.replace(from, to)` for a single character `from`. */
  function ReplaceChar(s: string, from: char, to: char): (r: string)
    ensures |r| == |s|
    ensures forall i :: 0 <= i < |s| ==> r[i] == if s[i] == from then to else s[i]
  {
    if s == [] then []
    else [if s[0] == from then to else s[0]] + ReplaceChar(s[1..], from, to)
  }

  /** Two consecutive spaces occur somewhere in `s`. */
  predicate HasDoubleSpace(s: string)
  {
    exists i :: 0 <= i < |s| - 1 && s[i] == ' ' && s[i + 1] == ' '
  }

  /** `n` spaces. */
  function Spaces(n: nat): (r: string)
    ensures |r| == n && forall i :: 0 <= i < n ==> r[i] == ' '
  {
    if n == 0 then [] else [' '] + Spaces(n - 1)
  }

  /**
   * `s.replace("  ", " ")`: one left-to-right pass that replaces each
   * non-overlapping pair of spaces by a single space.
   */
  function SquashDoubleSpaces(s: string): (r: string)
    ensures |r| <= |s|
  {
    if |s| >= 2 && s[0] == ' ' && s[1] == ' ' then " " + SquashDoubleSpaces(s[2..])
    else if s == [] then []
    else [s[0]] + SquashDoubleSpaces(s[1..])
  }

  /** The pass shortens `s` exactly when `s` has two adjacent spaces, and otherwise leaves it as it is. */
  lemma {:induction false} SquashShortensIff(s: string)
    ensures HasDoubleSpace(s) <==> |SquashDoubleSpaces(s)| < |s|
    ensures !HasDoubleSpace(s) ==> SquashDoubleSpaces(s) == s
    decreases |s|
  {
    if |s| >= 2 && s[0] == ' ' && s[1] == ' ' {
      assert HasDoubleSpace(s) by { assert s[0] == ' ' && s[1] == ' '; }
    } else if s != [] {
      SquashShortensIff(s[1..]);
      assert HasDoubleSpace(s) <==> HasDoubleSpace(s[1..]) by {
        if HasDoubleSpace(s) {
          var i :| 0 <= i < |s| - 1 && s[i] == ' ' && s[i + 1] == ' ';
          assert i > 0;
          assert s[1..][i - 1] == ' ' && s[1..][i] == ' ';
        }
        if HasDoubleSpace(s[1..]) {
          var i :| 0 <= i < |s[1..]| - 1 && s[1..][i] == ' ' && s[1..][i + 1] == ' ';
          assert s[i + 1] == ' ' && s[i + 2] == ' ';
        }
      }
    }
  }

  /** A leading pair of spaces becomes one space. */
  lemma SquashPair(s: string)
    requires |s| >= 2 && s[0] == ' ' && s[1] == ' '
    ensures SquashDoubleSpaces(s) == " " + SquashDoubleSpaces(s[2..])
  {
  }

  lemma SpacesSplit(n: nat, t: string)
    requires n >= 2
    ensures (Spaces(n) + t)[0] == ' ' && (Spaces(n) + t)[1] == ' '
    ensures (Spaces(n) + t)[2..] == Spaces(n - 2) + t
    ensures Spaces((n + 1) / 2) == " " + Spaces((n - 1) / 2)
  {
    assert (n + 1) / 2 - 1 == (n - 1) / 2;
  }

  lemma SquashOneSpace(t: string)
    requires t == [] || t[0] != ' '
    ensures SquashDoubleSpaces(Spaces(1) + t) == Spaces(1) + SquashDoubleSpaces(t)
  {
    var s := Spaces(1) + t;
    assert s == [' '] + t;
    assert s[1..] == t;
    assert !(|s| >= 2 && s[0] == ' ' && s[1] == ' ');
  }

  lemma SquashRunStep(n: nat, t: string)
    requires n >= 2
    requires SquashDoubleSpaces(Spaces(n - 2) + t) == Spaces((n - 1) / 2) + SquashDoubleSpaces(t)
    ensures SquashDoubleSpaces(Spaces(n) + t) == Spaces((n + 1) / 2) + SquashDoubleSpaces(t)
  {
    SpacesSplit(n, t);
    SquashPair(Spaces(n) + t);
  }

  /**
   * The pass halves every run of spaces, rounding up: a run of `n` spaces
   * followed by a non-space (or by the end) becomes `(n + 1) / 2` spaces.
   * In particular runs are not collapsed to one space.
   */
  lemma {:induction false} SquashRun(n: nat, t: string)
    requires t == [] || t[0] != ' '
    ensures SquashDoubleSpaces(Spaces(n) + t) == Spaces((n + 1) / 2) + SquashDoubleSpaces(t)
    decreases n
  {
    if n >= 2 {
      SquashRun(n - 2, t);
      SquashRunStep(n, t);
    } else if n == 1 {
      SquashOneSpace(t);
    } else {
      assert Spaces(n) + t == t;
    }
  }

  lemma SquashKeep(s: string)
    requires s != [] && !(|s| >= 2 && s[0] == ' ' && s[1] == ' ')
    ensures SquashDoubleSpaces(s) == [s[0]] + SquashDoubleSpaces(s[1..])
  {
  }

  lemma AppendAssoc(x: string, y: string, z: string)
    ensures x + (y + z) == (x + y) + z
  {
  }

  lemma DropAppend(a: string, b: string, n: nat)
    requires n <= |a|
    ensures (a + b)[n..] == a[n..] + b
  {
  }

  lemma SquashAppendPair(a: string, b: string)
    requires |a| >= 2 && a[0] == ' ' && a[1] == ' '
    requires SquashDoubleSpaces(a[2..] + b) == SquashDoubleSpaces(a[2..]) + SquashDoubleSpaces(b)
    ensures SquashDoubleSpaces(a + b) == SquashDoubleSpaces(a) + SquashDoubleSpaces(b)
  {
    DropAppend(a, b, 2);
    SquashPair(a + b);
    SquashPair(a);
    AppendAssoc(" ", SquashDoubleSpaces(a[2..]), SquashDoubleSpaces(b));
  }

  lemma SquashAppendOne(a: string, b: string)
    requires a != [] && a[|a| - 1] != ' ' && !(|a| >= 2 && a[0] == ' ' && a[1] == ' ')
    requires SquashDoubleSpaces(a[1..] + b) == SquashDoubleSpaces(a[1..]) + SquashDoubleSpaces(b)
    ensures SquashDoubleSpaces(a + b) == SquashDoubleSpaces(a) + SquashDoubleSpaces(b)
  {
    DropAppend(a, b, 1);
    assert (a + b)[0] == a[0] && (|a| >= 2 ==> (a + b)[1] == a[1]);
    SquashKeep(a + b);
    SquashKeep(a);
    AppendAssoc([a[0]], SquashDoubleSpaces(a[1..]), SquashDoubleSpaces(b));
  }

  /** No pair of spaces straddles a boundary that follows a non-space. */
  lemma {:induction false} SquashAppend(a: string, b: string)
    requires a == [] || a[|a| - 1] != ' '
    ensures SquashDoubleSpaces(a + b) == SquashDoubleSpaces(a) + SquashDoubleSpaces(b)
    decreases |a|
  {
    if a == [] {
      assert a + b == b;
    } else if |a| >= 2 && a[0] == ' ' && a[1] == ' ' {
      SquashAppend(a[2..], b);
      SquashAppendPair(a, b);
    } else {
      SquashAppend(a[1..], b);
      SquashAppendOne(a, b);
    }
  }

  /** A space is not cased, so each word after a space is title-cased on its own. */
  lemma TitleCaseWords(a: string, b: string)
    ensures TitleCase(a + " " + b) == TitleCase(a) + " " + TitleCase(b)
  {
    var s, r := a + " " + b, TitleCase(a + " " + b);
    var q := TitleCase(a) + " " + TitleCase(b);
    forall i | 0 <= i < |r|
      ensures r[i] == q[i]
    {
      assert r[i] == if i > 0 && IsCased(s[i - 1]) then Lower(s[i]) else Upper(s[i]);
      if i < |a| {
        assert s[i] == a[i];
        if i > 0 {
          assert s[i - 1] == a[i - 1];
        }
        assert q[i] == TitleCase(a)[i];
      } else if i == |a| {
        assert s[i] == ' ';
        assert q[i] == ' ';
      } else {
        var k := i - |a| - 1;
        assert s[i] == b[k];
        if k > 0 {
          assert s[i - 1] == b[k - 1];
        } else {
          assert s[i - 1] == ' ';
        }
        assert q[i] == TitleCase(b)[k];
      }
    }
  }

  lemma TitleOfExample()
    ensures TitleCase("example") == "Example"
  {
    var s := "example";
    var r := TitleCase(s);
    assert r[0] == Upper(s[0]) == 'E';
    assert IsCased(s[0]) && r[1] == Lower(s[1]) == 'x';
    assert IsCased(s[1]) && r[2] == Lower(s[2]) == 'a';
    assert IsCased(s[2]) && r[3] == Lower(s[3]) == 'm';
    assert IsCased(s[3]) && r[4] == Lower(s[4]) == 'p';
    assert IsCased(s[4]) && r[5] == Lower(s[5]) == 'l';
    assert IsCased(s[5]) && r[6] == Lower(s[6]) == 'e';
  }

  lemma TitleOfExtras()
    ensures TitleCase("extras") == "Extras"
  {
    var s := "extras";
    var r := TitleCase(s);
    assert r[0] == Upper(s[0]) == 'E';
    assert IsCased(s[0]) && r[1] == Lower(s[1]) == 'x';
    assert IsCased(s[1]) && r[2] == Lower(s[2]) == 't';
    assert IsCased(s[2]) && r[3] == Lower(s[3]) == 'r';
    assert IsCased(s[3]) && r[4] == Lower(s[4]) == 'a';
    assert IsCased(s[4]) && r[5] == Lower(s[5]) == 's';
  }

  lemma TitleCaseExample()
    ensures TitleCase("example extras") == "Example Extras"
  {
    TitleOfExample();
    TitleOfExtras();
    TitleCaseWords("example", "extras");
    assert "example" + " " + "extras" == "example extras";
    assert "Example" + " " + "Extras" == "Example Extras";
  }

  /** Three spaces become two, not one. */
  lemma ThreeSpacesBecomeTwo()
    ensures SquashDoubleSpaces("a   b") == "a  b"
  {
    SquashAppend("a", "   b");
    SquashRun(3, "b");
    assert "   b" == Spaces(3) + "b";
    SquashShortensIff("a");
    SquashShortensIff("b");
  }
}
