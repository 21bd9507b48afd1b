/** Small value types and string helpers shared by the three components. */
module Strings {

  datatype Option<+T> = None | Some(value: T) {
    function GetOr(default: T): T {
      match this
      case Some(v) => v
      case None => default
    }
  }

  /** True when `p` is a prefix of `s` (String.prototype.startsWith). */
  predicate StartsWith(s: string, p: string) {
    |p| <= |s| && s[..|p|] == p
  }

  /** Splitting on a single separator character, as JavaScript's `String.prototype.split`
      and Rust's `str::split` do it: the empty string gives `[""]`, two adjacent separators
      give an empty part between them. */
  function Split(s: string, sep: char): (parts: seq<string>)
    ensures |parts| >= 1
    ensures forall i :: 0 <= i < |parts| ==> sep !in parts[i]
    ensures |parts| == 1 <==> sep !in s
    decreases |s|
  {
    if |s| == 0 then [""]
    else if s[0] == sep then [""] + Split(s[1..], sep)
    else
      var rest := Split(s[1..], sep);
      [[s[0]] + rest[0]] + rest[1..]
  }

  /** The inverse of `Split`: the parts glued back together with the separator between them. */
  function Join(parts: seq<string>, sep: char): string
    requires |parts| >= 1
    decreases |parts|
  {
    if |parts| == 1 then parts[0] else parts[0] + [sep] + Join(parts[1..], sep)
  }

  /** Splitting and joining again gives back the original string. */
  lemma {:induction false} JoinSplit(s: string, sep: char)
    ensures Join(Split(s, sep), sep) == s
    decreases |s|
  {
    if |s| == 0 {
    } else if s[0] == sep {
      JoinSplit(s[1..], sep);
      var rest := Split(s[1..], sep);
      assert Split(s, sep) == [""] + rest;
      assert (([""] + rest)[1..]) == rest;
      assert s == [sep] + s[1..];
    } else {
      JoinSplit(s[1..], sep);
      var rest := Split(s[1..], sep);
      var parts := [[s[0]] + rest[0]] + rest[1..];
      assert Split(s, sep) == parts;
      if |rest| == 1 {
        assert s == [s[0]] + s[1..];
      } else {
        assert parts[1..] == rest[1..];
        assert Join(rest, sep) == rest[0] + [sep] + Join(rest[1..], sep);
        assert s == [s[0]] + s[1..];
      }
    }
  }

  /** Joining parts free of the separator and splitting again gives back the parts. */
  lemma {:induction false} SplitJoin(parts: seq<string>, sep: char)
    requires |parts| >= 1
    requires forall i :: 0 <= i < |parts| ==> sep !in parts[i]
    ensures Split(Join(parts, sep), sep) == parts
    decreases |parts|, |parts[0]|
  {
    var p := parts[0];
    if |p| == 0 {
      if |parts| == 1 {
      } else {
        SplitJoin(parts[1..], sep);
        var j := Join(parts, sep);
        assert j == [sep] + Join(parts[1..], sep);
        assert j[1..] == Join(parts[1..], sep);
        assert [""] + parts[1..] == parts;
      }
    } else {
      var parts' := [p[1..]] + parts[1..];
      assert sep !in p[1..] by {
        assert forall c :: c in p[1..] ==> c in p;
      }
      SplitJoin(parts', sep);
      var j := Join(parts, sep);
      var j' := Join(parts', sep);
      if |parts| == 1 {
        assert j == [p[0]] + j';
      } else {
        assert parts'[1..] == parts[1..];
        assert j == [p[0]] + j';
      }
      assert j[0] == p[0] && j[1..] == j';
      var rest := Split(j', sep);
      assert rest == parts';
      assert p[0] in p;
      assert Split(j, sep) == [[p[0]] + rest[0]] + rest[1..];
      assert [p[0]] + p[1..] == p;
      assert [[p[0]] + rest[0]] + rest[1..] == parts;
    }
  }

  /** The last part of a split is the text after the last separator (all of it, when there
      is none). */
  lemma {:induction false} SplitLastPart(s: string, sep: char)
    ensures var parts := Split(s, sep);
      var p := parts[|parts| - 1];
      |p| <= |s| && p == s[|s| - |p|..] && (|p| < |s| ==> s[|s| - |p| - 1] == sep)
    decreases |s|
  {
    if |s| > 0 {
      SplitLastPart(s[1..], sep);
      var rest := Split(s[1..], sep);
      var q := rest[|rest| - 1];
      if s[0] == sep {
        assert Split(s, sep)[|Split(s, sep)| - 1] == q;
      } else if |rest| == 1 {
        assert forall k :: 0 <= k < |s[1..]| ==> s[1..][k] != sep;
        assert |q| == |s| - 1;
        assert Split(s, sep) == [[s[0]] + q];
        assert [s[0]] + q == s;
      } else {
        assert Split(s, sep)[|Split(s, sep)| - 1] == q;
      }
    }
  }
}
