/** The string operations the command path relies on: JavaScript's
    toLowerCase (restricted to ASCII), split(' ') and join, and the
    string.js helpers startsWith, chompLeft, chompRight and strip. */
module Strings {

  /** ASCII lower-casing of one character. */
  function LowerChar(c: char): (d: char)
    ensures 'A' <= c <= 'Z' ==> d as int == c as int + 32
    ensures !('A' <= c <= 'Z') ==> d == c
    ensures !('A' <= d <= 'Z')
  {
    if 'A' <= c <= 'Z' then (c as int + 32) as char else c
  }

  function Lower(s: string): (r: string)
    ensures |r| == |s|
    ensures forall i :: 0 <= i < |s| ==> r[i] == LowerChar(s[i])
  {
    seq(|s|, i requires 0 <= i < |s| => LowerChar(s[i]))
  }

  lemma LowerIdempotent(s: string)
    ensures Lower(Lower(s)) == Lower(s)
  {
    assert forall i :: 0 <= i < |s| ==> LowerChar(LowerChar(s[i])) == LowerChar(s[i]);
  }

  lemma LowerAppend(a: string, b: string)
    ensures Lower(a + b) == Lower(a) + Lower(b)
  {
    assert forall i :: 0 <= i < |a + b| ==> Lower(a + b)[i] == (Lower(a) + Lower(b))[i];
  }

  /** string.js startsWith: `p` is a prefix of `s`. */
  predicate StartsWith(s: string, p: string)
  {
    p <= s
  }

  /** string.js chompLeft: removes `p` once from the front of `s` when `s` starts with it. */
  function ChompLeft(s: string, p: string): (r: string)
    ensures StartsWith(s, p) ==> s == p + r
    ensures !StartsWith(s, p) ==> r == s
  {
    if StartsWith(s, p) then s[|p|..] else s
  }

  /** string.js chompRight: removes `suf` once from the end of `s` when `s` ends with it. */
  function ChompRight(s: string, suf: string): (r: string)
    ensures |suf| <= |s| && s[|s| - |suf|..] == suf ==> s == r + suf
    ensures !(|suf| <= |s| && s[|s| - |suf|..] == suf) ==> r == s
  {
    if |suf| <= |s| && s[|s| - |suf|..] == suf then s[..|s| - |suf|] else s
  }

  /** JavaScript `s.split(' ')`: the pieces between single spaces, at least one. */
  function Split(s: string): (parts: seq<string>)
    ensures |parts| >= 1
    decreases |s|
  {
    if s == "" then [""]
    else
      var rest := Split(s[1..]);
      if s[0] == ' ' then [""] + rest
      else [[s[0]] + rest[0]] + rest[1..]
  }

  /** JavaScript `parts.join(sep)`. */
  function Join(parts: seq<string>, sep: string): string
  {
    if |parts| == 0 then ""
    else if |parts| == 1 then parts[0]
    else parts[0] + sep + Join(parts[1..], sep)
  }

  /** Index of the first space of `s`, or |s| when there is none. */
  function FirstSpace(s: string): (i: nat)
    ensures i <= |s|
    ensures forall k :: 0 <= k < i ==> s[k] != ' '
    ensures i < |s| ==> s[i] == ' '
  {
    if s == "" || s[0] == ' ' then 0 else 1 + FirstSpace(s[1..])
  }

  /** Splitting on ' ' and joining with ' ' gives the string back. */
  lemma {:induction false} JoinSplit(s: string)
    ensures Join(Split(s), " ") == s
    decreases |s|
  {
    if s != "" {
      var rest := Split(s[1..]);
      JoinSplit(s[1..]);
      if s[0] == ' ' {
        assert Split(s) == [""] + rest;
        assert ([""] + rest)[1..] == rest;
      } else {
        var parts := [[s[0]] + rest[0]] + rest[1..];
        assert Split(s) == parts;
        if |rest| == 1 {
          assert Join(parts, " ") == [s[0]] + rest[0];
        } else {
          assert parts[1..] == rest[1..];
          assert Join(parts, " ") == [s[0]] + rest[0] + " " + Join(rest[1..], " ");
          assert Join(rest, " ") == rest[0] + " " + Join(rest[1..], " ");
        }
        assert s == [s[0]] + s[1..];
      }
    }
  }

  /** The first piece of a split is the text before the first space, and
      there is a second piece exactly when there is a space. */
  lemma {:induction false} SplitHead(s: string)
    ensures Split(s)[0] == s[..FirstSpace(s)]
    ensures |Split(s)| >= 2 <==> FirstSpace(s) < |s|
    decreases |s|
  {
    if s != "" && s[0] != ' ' {
      SplitHead(s[1..]);
      assert s[..FirstSpace(s)] == [s[0]] + s[1..][..FirstSpace(s[1..])];
    }
  }

  /** The first piece contains no space. */
  lemma SplitHeadHasNoSpace(s: string)
    ensures ' ' !in Split(s)[0]
  {
    SplitHead(s);
  }

  /** What split(' ') followed by taking the first piece and re-joining the rest
      yields: the text before the first space, and everything after it verbatim
      ("" when there is no space). */
  lemma SplitFirst(s: string)
    ensures Split(s)[0] == s[..FirstSpace(s)]
    ensures FirstSpace(s) < |s| ==> Join(Split(s)[1..], " ") == s[FirstSpace(s) + 1..]
    ensures FirstSpace(s) == |s| ==> Join(Split(s)[1..], " ") == ""
    ensures FirstSpace(s) < |s| ==> s == Split(s)[0] + " " + Join(Split(s)[1..], " ")
  {
    SplitHead(s);
    JoinSplit(s);
    var parts := Split(s);
    var i := FirstSpace(s);
    if i < |s| {
      assert Join(parts, " ") == parts[0] + " " + Join(parts[1..], " ");
      var tail := Join(parts[1..], " ");
      assert s == s[..i] + " " + tail;
      assert (s[..i] + " " + tail)[i + 1..] == tail;
    }
  }

  /** Each piece followed by the separator, accumulated left to right as a
      loop `acc := acc + piece + sep` does. */
  function Terminated(parts: seq<string>, sep: string): string
  {
    if parts == [] then "" else Terminated(parts[..|parts| - 1], sep) + parts[|parts| - 1] + sep
  }

  lemma {:induction false} JoinSnoc(parts: seq<string>, x: string, sep: string)
    requires |parts| >= 1
    ensures Join(parts + [x], sep) == Join(parts, sep) + sep + x
    decreases |parts|
  {
    if |parts| == 1 {
      assert (parts + [x])[1..] == [x];
    } else {
      assert (parts + [x])[1..] == parts[1..] + [x];
      JoinSnoc(parts[1..], x, sep);
    }
  }

  /** Accumulating "piece + sep" and then chomping one trailing separator is joining. */
  lemma {:induction false} TerminatedIsJoin(parts: seq<string>, sep: string)
    requires |parts| >= 1
    ensures Terminated(parts, sep) == Join(parts, sep) + sep
    ensures ChompRight(Terminated(parts, sep), sep) == Join(parts, sep)
    decreases |parts|
  {
    var n := |parts|;
    if n > 1 {
      TerminatedIsJoin(parts[..n - 1], sep);
      JoinSnoc(parts[..n - 1], parts[n - 1], sep);
      assert parts[..n - 1] + [parts[n - 1]] == parts;
    } else {
      assert parts[..0] == [];
      assert Terminated(parts, sep) == Terminated([], sep) + parts[0] + sep;
    }
    var t := Terminated(parts, sep);
    assert t == Join(parts, sep) + sep;
    assert t[|t| - |sep|..] == sep;
    assert t[..|t| - |sep|] == Join(parts, sep);
  }

  /** string.js strip(pat): every non-overlapping occurrence of `pat`, found
      left to right, is removed (JavaScript `s.split(pat).join('')`). */
  function RemoveAll(s: string, pat: string): string
    requires pat != ""
    decreases |s|
  {
    if |s| < |pat| then s
    else if s[..|pat|] == pat then RemoveAll(s[|pat|..], pat)
    else [s[0]] + RemoveAll(s[1..], pat)
  }

  /** For a name without a dot, stripping ".js" from "name.js" gives the name. */
  lemma {:induction false} RemoveJsSuffix(name: string)
    requires '.' !in name
    ensures RemoveAll(name + ".js", ".js") == name
    decreases |name|
  {
    if name == "" {
      assert name + ".js" == ".js";
    } else {
      var s := name + ".js";
      assert s[0] == name[0] != '.';
      assert s[..3] != ".js";
      assert s[1..] == name[1..] + ".js";
      RemoveJsSuffix(name[1..]);
    }
  }

  /** A name without a dot is left unchanged by stripping ".js". */
  lemma {:induction false} RemoveJsNoDot(name: string)
    requires '.' !in name
    ensures RemoveAll(name, ".js") == name
    decreases |name|
  {
    if |name| >= 3 {
      assert name[0] != '.';
      assert name[..3] != ".js";
      RemoveJsNoDot(name[1..]);
    }
  }
}
