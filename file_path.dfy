/**
 * Ruby's `File.join` on a system whose only separator is '/'. The parts are
 * concatenated from left to right; at each junction, when the next part
 * starts with a separator the run of separators that ends the text so far is
 * dropped, and otherwise one separator is added unless the text so far
 * already ends with one. No other separators are touched.
 */
module FilePath {

  const Separator: char := '/'

  predicate EndsWithSeparator(s: string) {
    |s| > 0 && s[|s| - 1] == Separator
  }

  predicate StartsWithSeparator(s: string) {
    |s| > 0 && s[0] == Separator
  }

  /** `suffix` ends `s`. */
  predicate EndsWith(s: string, suffix: string) {
    |suffix| <= |s| && s[|s| - |suffix|..] == suffix
  }

  predicate AllSeparators(s: string) {
    forall c :: c in s ==> c == Separator
  }

  /** Where the run of separators that ends `s` begins (`|s|` when there is none). */
  function TrailingSeparatorsStart(s: string): (t: nat)
    ensures t <= |s|
    ensures AllSeparators(s[t..])
    ensures t > 0 ==> s[t - 1] != Separator
    ensures (t == |s|) == !EndsWithSeparator(s)
  {
    if EndsWithSeparator(s) then
      var t := TrailingSeparatorsStart(s[..|s| - 1]);
      assert s[t..] == s[..|s| - 1][t..] + [s[|s| - 1]];
      t
    else
      |s|
  }

  /** One junction of `File.join`: `part` always ends the result. */
  function JoinTwo(acc: string, part: string): (r: string)
    ensures EndsWith(r, part)
  {
    var t := TrailingSeparatorsStart(acc);
    if StartsWithSeparator(part) then
      acc[..t] + part
    else if t == |acc| then
      acc + [Separator] + part
    else
      acc + part
  }

  /**
   * At a junction, a `part` without a leading separator follows all of
   * `acc` and a separator (one is added unless `acc` already ends with one);
   * a `part` with a leading separator follows `acc` less its run of trailing
   * separators, and nothing else of `acc` is dropped.
   */
  lemma JoinTwoJunction(acc: string, part: string)
    ensures var r := JoinTwo(acc, part);
              |r| >= |part| && r[|r| - |part|..] == part &&
              (!StartsWithSeparator(part) ==>
                 |r| > |part| && |r| >= |acc| && r[..|acc|] == acc && r[|r| - |part| - 1] == Separator) &&
              (StartsWithSeparator(part) ==>
                 |r| - |part| <= |acc| && r[..|r| - |part|] == acc[..|r| - |part|] &&
                 !EndsWithSeparator(r[..|r| - |part|]) &&
                 AllSeparators(acc[|r| - |part|..]))
  {
  }

  /** `File.join(parts...)`: the junctions taken from left to right; the last part ends the result. */
  function Join(parts: seq<string>): (r: string)
    ensures parts == [] ==> r == ""
    ensures parts != [] ==> EndsWith(r, parts[|parts| - 1])
  {
    if parts == [] then ""
    else if |parts| == 1 then parts[0]
    else JoinTwo(Join(parts[..|parts| - 1]), parts[|parts| - 1])
  }

  /** Adding one more part to `File.join` adds one more junction. */
  lemma JoinSnoc(parts: seq<string>, part: string)
    requires parts != []
    ensures Join(parts + [part]) == JoinTwo(Join(parts), part)
  {
    assert (parts + [part])[..|parts|] == parts;
  }

  /** The separator `File.join` puts after `s` in front of a part that does not start with one. */
  function SeparatorAfter(s: string): string {
    if EndsWithSeparator(s) then "" else [Separator]
  }

  /** A junction in front of a part that does not start with a separator. */
  lemma JoinTwoPlain(acc: string, part: string)
    requires !StartsWithSeparator(part)
    ensures JoinTwo(acc, part) == acc + SeparatorAfter(acc) + part
  {
  }

  /**
   * Joining a directory and a name without separators: the directory is a
   * prefix of the result, and the name is its last component.
   */
  lemma JoinName(directory: string, name: string)
    requires Separator !in name
    ensures Join([directory, name]) == directory + SeparatorAfter(directory) + name
    ensures var r := Join([directory, name]); |r| >= |directory| && r[..|directory|] == directory
    ensures AfterLastSeparator(Join([directory, name])) == name
  {
    assert !StartsWithSeparator(name) by {
      assert |name| > 0 ==> name[0] in name;
    }
    assert [directory, name][..1] == [directory];
    assert Join([directory, name]) == JoinTwo(directory, name);
    JoinTwoPlain(directory, name);
    var prefix := directory + SeparatorAfter(directory);
    assert prefix + name == directory + SeparatorAfter(directory) + name;
    assert (prefix + name)[..|directory|] == directory;
    AfterLastSeparatorAppend(prefix, name);
  }

  /**
   * `File.join(directory, a, b, '')` for two non-empty components without
   * separators: each junction adds exactly the separator in front of the
   * next component, and the empty last part adds a final separator.
   */
  lemma JoinComponents(directory: string, a: string, b: string)
    requires a != [] && b != [] && Separator !in a && Separator !in b
    ensures Join([directory, a, b, ""]) == directory + SeparatorAfter(directory) + a + [Separator] + b + [Separator]
  {
    var acc2 := directory + SeparatorAfter(directory) + a + [Separator] + b;
    JoinTwoComponents(directory, a, b);
    JoinSnoc([directory, a, b], "");
    assert [directory, a, b] + [""] == [directory, a, b, ""];
    assert acc2[|acc2| - 1] == b[|b| - 1] && b[|b| - 1] in b;
    JoinTwoPlain(acc2, "");
    assert acc2 + [Separator] + "" == acc2 + [Separator];
  }

  /** `File.join(directory, a, b)` for two non-empty components without separators. */
  lemma JoinTwoComponents(directory: string, a: string, b: string)
    requires a != [] && b != [] && Separator !in a && Separator !in b
    ensures Join([directory, a, b]) == directory + SeparatorAfter(directory) + a + [Separator] + b
  {
    var acc1 := directory + SeparatorAfter(directory) + a;
    JoinName(directory, a);
    JoinSnoc([directory, a], b);
    assert [directory, a] + [b] == [directory, a, b];
    assert b[0] in b;
    assert acc1[|acc1| - 1] == a[|a| - 1] && a[|a| - 1] in a;
    JoinTwoPlain(acc1, b);
  }

  /** A suffix of the last component is a suffix of the whole path. */
  lemma SuffixOfLastComponent(prefix: string, name: string, suffix: string)
    requires |name| >= |suffix| && name[|name| - |suffix|..] == suffix
    ensures var r := prefix + name; r[|r| - |suffix|..] == suffix
  {
    var r := prefix + name;
    assert r[|r| - |suffix|..] == name[|name| - |suffix|..];
  }

  /** The text after the last separator of `s` (all of `s` when it has none). */
  function AfterLastSeparator(s: string): (r: string)
    ensures Separator !in r
    ensures EndsWith(s, r)
  {
    if s == [] || s[|s| - 1] == Separator then
      ""
    else
      var init := AfterLastSeparator(s[..|s| - 1]);
      var r := init + [s[|s| - 1]];
      assert s[|s| - |r|..] == s[..|s| - 1][|s| - 1 - |init|..] + [s[|s| - 1]];
      r
  }

  /** After a prefix that ends with a separator, a separator-free suffix is the last component. */
  lemma {:induction false} AfterLastSeparatorAppend(prefix: string, name: string)
    requires EndsWithSeparator(prefix)
    requires Separator !in name
    ensures AfterLastSeparator(prefix + name) == name
  {
    if name == [] {
      assert prefix + name == prefix;
    } else {
      var s, init, last := prefix + name, name[..|name| - 1], name[|name| - 1];
      assert name == init + [last];
      assert last != Separator && Separator !in init;
      assert s[..|s| - 1] == prefix + init && s[|s| - 1] == last;
      AfterLastSeparatorAppend(prefix, init);
      assert AfterLastSeparator(s) == AfterLastSeparator(prefix + init) + [last];
    }
  }
}
