/** Paths as Java's default (Unix) file system builds them with `Paths.get`:
    a string is split at '/', empty names (from repeated or trailing
    separators) are dropped, and a leading '/' makes the path absolute.
    `Paths.get(first, more...)` first joins its arguments with '/', skipping
    empty ones, and then parses the joined string. */
module Paths {

  datatype Path = Path(absolute: bool, names: seq<string>)

  /** A single path element: non-empty and free of separators. */
  predicate IsName(s: string) {
    |s| > 0 && NoSeparator(s)
  }

  predicate NoSeparator(s: string) {
    forall i :: 0 <= i < |s| ==> s[i] != '/'
  }

  predicate WellFormed(p: Path) {
    forall i :: 0 <= i < |p.names| ==> IsName(p.names[i])
  }

  /** `p` is `root` or lies below it. */
  predicate Under(root: Path, p: Path) {
    p.absolute == root.absolute && root.names <= p.names
  }

  /** Length of the run of non-separator characters that starts `s`. */
  function NameLength(s: string): (k: nat)
    ensures k <= |s|
    ensures forall i :: 0 <= i < k ==> s[i] != '/'
    ensures k < |s| ==> s[k] == '/'
    decreases |s|
  {
    if |s| == 0 || s[0] == '/' then 0 else 1 + NameLength(s[1..])
  }

  /** The names of `s`, left to right, with empty names dropped. */
  function Names(s: string): (ns: seq<string>)
    ensures forall i :: 0 <= i < |ns| ==> IsName(ns[i])
    decreases |s|
  {
    if |s| == 0 then []
    else if s[0] == '/' then Names(s[1..])
    else
      var k := NameLength(s);
      [s[..k]] + Names(s[k..])
  }

  /** `Paths.get(s)` for a single string. */
  function PathOf(s: string): (p: Path)
    ensures WellFormed(p)
    ensures p.absolute <==> |s| > 0 && s[0] == '/'
  {
    Path(|s| > 0 && s[0] == '/', Names(s))
  }

  /** The string `Paths.get(first, more...)` parses: each non-empty element of
      `more` is appended, preceded by '/' unless nothing has been written yet. */
  function JoinArgs(acc: string, more: seq<string>): string
    decreases |more|
  {
    if more == [] then acc
    else
      var next := if more[0] == "" then acc else if acc == "" then more[0] else acc + "/" + more[0];
      JoinArgs(next, more[1..])
  }

  /** `Paths.get(first, more...)`. */
  function Get(first: string, more: seq<string>): Path {
    PathOf(JoinArgs(first, more))
  }

  /** `File.getName()`: the last name, or "" for a path without names. */
  function FileName(p: Path): string {
    if |p.names| == 0 then "" else p.names[|p.names| - 1]
  }

  /** The names of every element of `more`, concatenated. */
  function NamesOfAll(more: seq<string>): seq<string>
    decreases |more|
  {
    if more == [] then [] else Names(more[0]) + NamesOfAll(more[1..])
  }

  /** `Path.toString()` on a Unix file system. */
  function Render(p: Path): string {
    (if p.absolute then "/" else "") + JoinNames(p.names)
  }

  function JoinNames(ns: seq<string>): string
    decreases |ns|
  {
    if |ns| == 0 then "" else if |ns| == 1 then ns[0] else ns[0] + "/" + JoinNames(ns[1..])
  }

  lemma {:induction false} NameLengthOfJoin(s: string, t: string)
    ensures NameLength(s + "/" + t) == NameLength(s)
    decreases |s|
  {
    if |s| > 0 && s[0] != '/' {
      assert (s + "/" + t)[1..] == s[1..] + "/" + t;
      NameLengthOfJoin(s[1..], t);
    }
  }

  /** Joining two strings with a separator concatenates their names. */
  lemma {:induction false} NamesOfJoin(s: string, t: string)
    ensures Names(s + "/" + t) == Names(s) + Names(t)
    decreases |s|
  {
    var j := s + "/" + t;
    if |s| == 0 {
      assert j == "/" + t && j[1..] == t;
    } else if s[0] == '/' {
      assert j[0] == '/' && j[1..] == s[1..] + "/" + t;
      NamesOfJoin(s[1..], t);
    } else {
      var k := NameLength(s);
      JoinSharesFirstName(s, t);
      NamesOfJoin(s[k..], t);
    }
  }

  /** When `s` starts with a name, `s + "/" + t` starts with the same name and
      continues with the rest of `s` joined to `t`. */
  lemma JoinSharesFirstName(s: string, t: string)
    requires |s| > 0 && s[0] != '/'
    ensures var k := NameLength(s);
      && Names(s) == [s[..k]] + Names(s[k..])
      && Names(s + "/" + t) == [s[..k]] + Names(s[k..] + "/" + t)
  {
    var j := s + "/" + t;
    var k := NameLength(s);
    NameLengthOfJoin(s, t);
    assert j[0] == s[0];
    assert j[..k] == s[..k];
    assert j[k..] == s[k..] + "/" + t;
  }

  /** A separator-free string has itself as its only name, or none if empty. */
  lemma NamesOfName(s: string)
    requires NoSeparator(s)
    ensures Names(s) == if s == "" then [] else [s]
  {
    if s != "" {
      var k := NameLength(s);
      assert k == |s|;
      assert s[..k] == s;
      assert Names(s[k..]) == [];
    }
  }

  lemma {:induction false} JoinArgsNames(acc: string, more: seq<string>)
    ensures Names(JoinArgs(acc, more)) == Names(acc) + NamesOfAll(more)
    decreases |more|
  {
    if more != [] {
      var m := more[0];
      var next := if m == "" then acc else if acc == "" then m else acc + "/" + m;
      if m == "" {
        assert Names(m) == [];
      } else if acc == "" {
        assert Names(acc) == [];
      } else {
        NamesOfJoin(acc, m);
      }
      JoinArgsNames(next, more[1..]);
    }
  }

  lemma {:induction false} JoinArgsHead(acc: string, more: seq<string>)
    requires acc != ""
    ensures |JoinArgs(acc, more)| > 0 && JoinArgs(acc, more)[0] == acc[0]
    decreases |more|
  {
    if more != [] {
      var m := more[0];
      var next := if m == "" then acc else acc + "/" + m;
      JoinArgsHead(next, more[1..]);
    }
  }

  /** `Paths.get(first, more...)` is the path of `first` extended by the names
      of the extra arguments, in order; it keeps the root of `first` whenever
      the first extra argument is a name. */
  lemma GetAppends(first: string, more: seq<string>)
    requires |more| > 0 && IsName(more[0])
    ensures Get(first, more) == Path(PathOf(first).absolute, PathOf(first).names + NamesOfAll(more))
  {
    JoinArgsNames(first, more);
    var m := more[0];
    if first == "" {
      assert JoinArgs(first, more) == JoinArgs(m, more[1..]);
      JoinArgsHead(m, more[1..]);
    } else {
      JoinArgsHead(first, more);
    }
  }

  /** When every extra argument is a name, they are exactly the names added. */
  lemma {:induction false} NamesOfAllNames(more: seq<string>)
    requires forall i :: 0 <= i < |more| ==> IsName(more[i])
    ensures NamesOfAll(more) == more
    decreases |more|
  {
    if more != [] {
      NamesOfName(more[0]);
      NamesOfAllNames(more[1..]);
    }
  }

  lemma {:induction false} NamesOfJoinNames(ns: seq<string>)
    requires forall i :: 0 <= i < |ns| ==> IsName(ns[i])
    ensures Names(JoinNames(ns)) == ns
    ensures |ns| > 0 ==> |JoinNames(ns)| > 0 && JoinNames(ns)[0] == ns[0][0]
    decreases |ns|
  {
    if |ns| == 1 {
      NamesOfName(ns[0]);
    } else if |ns| > 1 {
      NamesOfName(ns[0]);
      NamesOfJoin(ns[0], JoinNames(ns[1..]));
      NamesOfJoinNames(ns[1..]);
    }
  }

  /** Parsing the printed form of a well-formed path gives the path back. */
  lemma PathOfRender(p: Path)
    requires WellFormed(p)
    ensures PathOf(Render(p)) == p
  {
    NamesOfJoinNames(p.names);
    var j := JoinNames(p.names);
    if p.absolute {
      assert Render(p) == "/" + j;
      assert Render(p)[1..] == j;
    } else {
      assert Render(p) == j;
    }
  }
}
