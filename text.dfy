/**
 * Python's `str.split(sep)` for a single separator character and its inverse
 * `sep.join(parts)`, on strings as character sequences.
 */
module Text {

  /** Index of the first `sep` in `s` at or after `from`, or `|s|` when there is none. */
  function FindFrom(s: string, sep: char, from: nat): (i: nat)
    requires from <= |s|
    ensures from <= i <= |s|
    ensures forall j :: from <= j < i ==> s[j] != sep
    ensures i < |s| ==> s[i] == sep
    decreases |s| - from
  {
    if from == |s| || s[from] == sep then from else FindFrom(s, sep, from + 1)
  }

  /** Index of the first `sep` in `s`, or `|s|` when `s` holds none. */
  function Find(s: string, sep: char): (i: nat)
    ensures i <= |s|
    ensures forall j :: 0 <= j < i ==> s[j] != sep
    ensures i < |s| ==> s[i] == sep
  {
    FindFrom(s, sep, 0)
  }

  /** `Find` is determined by its contract: the first separator, or the end. */
  lemma FindIs(s: string, sep: char, n: nat)
    requires n <= |s|
    requires forall j :: 0 <= j < n ==> s[j] != sep
    requires n < |s| ==> s[n] == sep
    ensures Find(s, sep) == n
  {
    FindFromIs(s, sep, 0, n);
  }

  lemma {:induction false} FindFromIs(s: string, sep: char, from: nat, n: nat)
    requires from <= n <= |s|
    requires forall j :: from <= j < n ==> s[j] != sep
    requires n < |s| ==> s[n] == sep
    ensures FindFrom(s, sep, from) == n
    decreases n - from
  {
    if from < n {
      FindFromIs(s, sep, from + 1, n);
    }
  }

  /**
   * The pieces of `s` between occurrences of `sep`, as Python's `str.split`
   * returns them: there is always at least one piece, and empty pieces are kept.
   */
  function Split(s: string, sep: char): (parts: seq<string>)
    ensures |parts| >= 1
    ensures forall k :: 0 <= k < |parts| ==> sep !in parts[k]
    decreases |s|
  {
    var i := Find(s, sep);
    if i == |s| then [s] else [s[..i]] + Split(s[i + 1..], sep)
  }

  /** The pieces written one after another with `sep` between neighbours. */
  function Join(parts: seq<string>, sep: char): (s: string)
    requires |parts| >= 1
    ensures |s| >= |parts[0]| && s[..|parts[0]|] == parts[0]
    decreases |parts|
  {
    if |parts| == 1 then parts[0] else parts[0] + [sep] + Join(parts[1..], sep)
  }

  /** One step of `Split`: the piece before the first separator, then the rest split. */
  lemma SplitStep(s: string, sep: char)
    requires Find(s, sep) < |s|
    ensures Split(s, sep) == [s[..Find(s, sep)]] + Split(s[Find(s, sep) + 1..], sep)
  {
  }

  /** One step of `Join`: the first piece, a separator, then the rest joined. */
  lemma JoinStep(head: string, rest: seq<string>, sep: char)
    requires |rest| >= 1
    ensures Join([head] + rest, sep) == head + [sep] + Join(rest, sep)
  {
    assert ([head] + rest)[1..] == rest;
  }

  /** Splitting loses nothing: joining the pieces gives back the string. */
  lemma {:induction false} JoinSplit(s: string, sep: char)
    ensures Join(Split(s, sep), sep) == s
    decreases |s|
  {
    var i := Find(s, sep);
    if i < |s| {
      var rest := s[i + 1..];
      SplitStep(s, sep);
      JoinStep(s[..i], Split(rest, sep), sep);
      JoinSplit(rest, sep);
      assert s == s[..i] + [sep] + rest;
    }
  }

  /** Joining pieces free of the separator and splitting again gives the pieces. */
  lemma {:induction false} SplitJoin(parts: seq<string>, sep: char)
    requires |parts| >= 1
    requires forall k :: 0 <= k < |parts| ==> sep !in parts[k]
    ensures Split(Join(parts, sep), sep) == parts
    decreases |parts|
  {
    var s := Join(parts, sep);
    var head := parts[0];
    if |parts| == 1 {
      assert forall j :: 0 <= j < |s| ==> s[j] != sep by {
        forall j | 0 <= j < |s| ensures s[j] != sep {
          assert s[j] in head;
        }
      }
      FindIs(s, sep, |s|);
    } else {
      var rest := Join(parts[1..], sep);
      assert parts == [head] + parts[1..];
      JoinStep(head, parts[1..], sep);
      assert s == head + [sep] + rest;
      assert forall j :: 0 <= j < |head| ==> s[j] != sep by {
        forall j | 0 <= j < |head| ensures s[j] != sep {
          assert s[j] == head[j];
        }
      }
      FindIs(s, sep, |head|);
      SplitStep(s, sep);
      assert s[..|head|] == head;
      assert s[|head| + 1..] == rest;
      SplitJoin(parts[1..], sep);
    }
  }

  /** A string without the separator is one piece. */
  lemma SplitWhole(a: string, sep: char)
    requires sep !in a
    ensures Split(a, sep) == [a]
  {
    SplitJoin([a], sep);
  }

  /** Two separator-free strings with one separator between them are two pieces. */
  lemma SplitPair(a: string, b: string, sep: char)
    requires sep !in a && sep !in b
    ensures Split(a + [sep] + b, sep) == [a, b]
  {
    assert Join([a, b], sep) == a + [sep] + Join([b], sep);
    SplitJoin([a, b], sep);
  }
}
