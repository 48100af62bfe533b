/** String.Split over separator characters and its inverse, joining with one separator. */
module Strings {

  /** String.Split(seps): the pieces between separators, empty pieces included. There is
      always at least one piece; the empty string splits to [""]. */
  function Split(s: string, seps: set<char>): (r: seq<string>)
    ensures |r| >= 1
    ensures forall i :: 0 <= i < |r| ==> NoSeparator(r[i], seps)
  {
    if s == [] then [""]
    else if s[0] in seps then [""] + Split(s[1..], seps)
    else
      var rest := Split(s[1..], seps);
      [[s[0]] + rest[0]] + rest[1..]
  }

  predicate NoSeparator(s: string, seps: set<char>) {
    forall i :: 0 <= i < |s| ==> s[i] !in seps
  }

  /** The pieces joined with `sep` between neighbours: no leading or trailing separator. */
  function Join(vs: seq<string>, sep: char): string {
    if vs == [] then ""
    else if |vs| == 1 then vs[0]
    else Join(vs[..|vs| - 1], sep) + [sep] + vs[|vs| - 1]
  }

  /** A string with no separator splits to itself. */
  lemma {:induction false} SplitNoSeparator(s: string, seps: set<char>)
    requires NoSeparator(s, seps)
    ensures Split(s, seps) == [s]
  {
    if s != [] {
      SplitNoSeparator(s[1..], seps);
      assert [s[0]] + s[1..] == s;
    }
  }

  /** Splitting at a separator splits the two sides independently. */
  lemma {:induction false} SplitAtSeparator(s: string, c: char, t: string, seps: set<char>)
    requires c in seps
    ensures Split(s + [c] + t, seps) == Split(s, seps) + Split(t, seps)
  {
    if s == [] {
      assert s + [c] + t == [c] + t;
      assert ([c] + t)[1..] == t;
    } else {
      var u := s + [c] + t;
      assert u[0] == s[0] && u[1..] == s[1..] + [c] + t;
      SplitAtSeparator(s[1..], c, t, seps);
    }
  }

  /** Round trip: splitting a joined list gives the list back, when no piece holds a separator. */
  lemma {:induction false} SplitJoin(vs: seq<string>, sep: char, seps: set<char>)
    requires sep in seps && vs != []
    requires forall i :: 0 <= i < |vs| ==> NoSeparator(vs[i], seps)
    ensures Split(Join(vs, sep), seps) == vs
  {
    if |vs| == 1 {
      SplitNoSeparator(vs[0], seps);
    } else {
      var init := vs[..|vs| - 1];
      SplitJoin(init, sep, seps);
      SplitAtSeparator(Join(init, sep), sep, vs[|vs| - 1], seps);
      SplitNoSeparator(vs[|vs| - 1], seps);
      assert init + [vs[|vs| - 1]] == vs;
    }
  }
}
