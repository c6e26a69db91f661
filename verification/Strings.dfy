/** Array.prototype.join and String.prototype.split on a single character. */
module Strings {

  function Join(parts: seq<string>, separator: string): string {
    if parts == [] then ""
    else if |parts| == 1 then parts[0]
    else parts[0] + separator + Join(parts[1..], separator)
  }

  /** The parts between separators; there is always one. */
  function Split(s: string, separator: char): (parts: seq<string>)
    ensures parts != []
  {
    if s == "" then [""]
    else if s[0] == separator then [""] + Split(s[1..], separator)
    else
      var rest := Split(s[1..], separator);
      [[s[0]] + rest[0]] + rest[1..]
  }

  lemma {:induction false} SplitAtSeparator(a: string, b: string, separator: char)
    requires forall i :: 0 <= i < |a| ==> a[i] != separator
    ensures Split(a + ([separator] + b), separator) == [a] + Split(b, separator)
  {
    var t := a + ([separator] + b);
    if a == "" {
      assert t == [separator] + b;
    } else {
      SplitAtSeparator(a[1..], b, separator);
      assert t[1..] == a[1..] + ([separator] + b);
      assert [a[0]] + a[1..] == a;
    }
  }

  lemma {:induction false} SplitWithoutSeparator(a: string, separator: char)
    requires forall i :: 0 <= i < |a| ==> a[i] != separator
    ensures Split(a, separator) == [a]
  {
    if a != "" {
      SplitWithoutSeparator(a[1..], separator);
      assert [a[0]] + a[1..] == a;
    }
  }

  lemma JoinCons(first: string, rest: seq<string>, separator: string)
    requires rest != []
    ensures Join([first] + rest, separator) == first + separator + Join(rest, separator)
  {
    assert ([first] + rest)[1..] == rest;
  }

  lemma {:induction false} JoinAppends(a: seq<string>, b: seq<string>, separator: string)
    requires a != [] && b != []
    ensures Join(a + b, separator) == Join(a, separator) + separator + Join(b, separator)
  {
    if |a| == 1 {
      assert a == [a[0]];
      JoinCons(a[0], b, separator);
    } else {
      var rest := a[1..];
      JoinAppends(rest, b, separator);
      assert a + b == [a[0]] + (rest + b) && a == [a[0]] + rest;
      JoinCons(a[0], rest + b, separator);
      JoinCons(a[0], rest, separator);
      LeftToRight(a[0], separator, Join(rest, separator), Join(b, separator));
    }
  }

  lemma LeftToRight(a: string, separator: string, b: string, c: string)
    ensures a + separator + (b + separator + c) == a + separator + b + separator + c
  {}
}
