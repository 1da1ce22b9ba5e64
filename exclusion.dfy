/**
 * The "create but do not migrate" setting: a `|`-separated list of table names,
 * split with `StringSplitOptions.RemoveEmptyEntries` and tested with an exact,
 * case-sensitive `Contains`.
 */
module Exclusion {

  const SEPARATOR: char := '|'

  /** A piece the split may return: non-empty and free of the separator. */
  predicate WellFormedPiece(p: string)
  {
    p != [] && SEPARATOR !in p
  }

  predicate AllWellFormed(pieces: seq<string>)
  {
    forall k :: 0 <= k < |pieces| ==> WellFormedPiece(pieces[k])
  }

  /** The piece collected so far, dropped when it is empty. */
  function Piece(current: string): seq<string>
  {
    if current == [] then [] else [current]
  }

  /** Splits `s`, given the separator-free text `current` already collected for the next piece. */
  function SplitFrom(s: string, current: string): (pieces: seq<string>)
    requires SEPARATOR !in current
    ensures AllWellFormed(pieces)
    decreases |s|
  {
    if s == [] then Piece(current)
    else if s[0] == SEPARATOR then
      var rest := SplitFrom(s[1..], []);
      assert AllWellFormed(Piece(current) + rest) by {
        forall k | 0 <= k < |Piece(current) + rest| ensures WellFormedPiece((Piece(current) + rest)[k]) {
          if k >= |Piece(current)| { assert (Piece(current) + rest)[k] == rest[k - |Piece(current)|]; }
        }
      }
      Piece(current) + rest
    else SplitFrom(s[1..], current + [s[0]])
  }

  /** `s.Split(new[] { "|" }, StringSplitOptions.RemoveEmptyEntries)`. */
  function Split(s: string): (pieces: seq<string>)
    ensures AllWellFormed(pieces)
  {
    SplitFrom(s, [])
  }

  /**
   * `!omit.Contains(name)` is false: the table is provisioned but its data is
   * not copied.  Only a non-empty name free of the separator can be excluded.
   */
  predicate Excluded(name: string, setting: string)
    ensures Excluded(name, setting) ==> WellFormedPiece(name)
  {
    name in Split(setting)
  }

  /** The setting that lists exactly `names`. */
  function Join(names: seq<string>): string
  {
    if names == [] then []
    else if |names| == 1 then names[0]
    else names[0] + [SEPARATOR] + Join(names[1..])
  }

  lemma {:induction false} SplitFromPrefix(x: string, rest: string, current: string)
    requires SEPARATOR !in x && SEPARATOR !in current
    ensures SplitFrom(x + rest, current) == SplitFrom(rest, current + x)
    decreases |x|
  {
    if x == [] {
      assert x + rest == rest;
      assert current + x == current;
    } else {
      assert (x + rest)[0] == x[0];
      assert (x + rest)[1..] == x[1..] + rest;
      SplitFromPrefix(x[1..], rest, current + [x[0]]);
      assert current + [x[0]] + x[1..] == current + x;
    }
  }

  /** Splitting a setting built from well-formed names gives those names back, in order. */
  lemma {:induction false} SplitJoin(names: seq<string>)
    requires AllWellFormed(names)
    ensures Split(Join(names)) == names
  {
    if names == [] {
    } else if |names| == 1 {
      SplitFromPrefix(names[0], [], []);
      assert names[0] + [] == names[0];
      assert [] + names[0] == names[0];
    } else {
      var x := names[0];
      var tail := Join(names[1..]);
      assert AllWellFormed(names[1..]) by {
        forall k | 0 <= k < |names[1..]| ensures WellFormedPiece(names[1..][k]) {
          assert names[1..][k] == names[k + 1];
        }
      }
      SplitJoin(names[1..]);
      assert Join(names) == x + ([SEPARATOR] + tail);
      SplitFromPrefix(x, [SEPARATOR] + tail, []);
      assert [] + x == x;
      assert ([SEPARATOR] + tail)[1..] == tail;
      assert names == [x] + names[1..];
    }
  }

  /** Exclusion is exact membership: with a setting listing `names`, a table is excluded iff its name is listed. */
  lemma ExcludedIffListed(name: string, names: seq<string>)
    requires AllWellFormed(names)
    ensures Excluded(name, Join(names)) <==> name in names
  {
    SplitJoin(names);
  }

  lemma {:induction false} SplitFromDoubledSeparator(a: string, b: string, current: string)
    requires SEPARATOR !in current
    ensures SplitFrom(a + [SEPARATOR, SEPARATOR] + b, current) == SplitFrom(a + [SEPARATOR] + b, current)
    decreases |a|
  {
    var doubled := a + [SEPARATOR, SEPARATOR] + b;
    var single := a + [SEPARATOR] + b;
    if a == [] {
      assert doubled[1..] == [SEPARATOR] + b;
      assert ([SEPARATOR] + b)[1..] == b;
      assert single == [SEPARATOR] + b;
    } else {
      assert doubled[0] == a[0] && single[0] == a[0];
      assert doubled[1..] == a[1..] + [SEPARATOR, SEPARATOR] + b;
      assert single[1..] == a[1..] + [SEPARATOR] + b;
      if a[0] == SEPARATOR {
        SplitFromDoubledSeparator(a[1..], b, []);
      } else {
        SplitFromDoubledSeparator(a[1..], b, current + [a[0]]);
      }
    }
  }

  /** Empty entries are removed: a doubled separator splits exactly like a single one. */
  lemma DoubledSeparatorIgnored(a: string, b: string)
    ensures Split(a + [SEPARATOR, SEPARATOR] + b) == Split(a + [SEPARATOR] + b)
  {
    SplitFromDoubledSeparator(a, b, []);
  }

  /** A leading separator yields no entry. */
  lemma LeadingSeparatorIgnored(s: string)
    ensures Split([SEPARATOR] + s) == Split(s)
  {
    assert ([SEPARATOR] + s)[1..] == s;
  }
}
