/** A model of Go's `strings.Split(s, sep)` for a separator of exactly one
    byte, which is the only way the line reader calls it (`sep` is "\n").
    Go strings are byte strings, so the model works on `seq<byte>`. */
module GoStrings {

  newtype byte = b: int | 0 <= b < 256

  /** The line terminator '\n'. */
  const NEWLINE: byte := 10

  /** Number of occurrences of `b` in `s`. */
  function Count(s: seq<byte>, b: byte): (n: nat)
    ensures n <= |s|
  {
    if s == [] then 0
    else (if s[0] == b then 1 else 0) + Count(s[1..], b)
  }

  /** Go's `strings.Join(parts, string(sep))`: the parts with `sep` between
      neighbours and none after the last. */
  function Join(parts: seq<seq<byte>>, sep: byte): seq<byte>
  {
    if |parts| == 0 then []
    else if |parts| == 1 then parts[0]
    else parts[0] + [sep] + Join(parts[1..], sep)
  }

  /** `strings.Split(s, string(sep))`: the maximal `sep`-free pieces of `s`
      in order. An empty `s`, or one without `sep`, gives the one-part
      result `[s]`; there is one part more than there are separators. */
  function Split(s: seq<byte>, sep: byte): (parts: seq<seq<byte>>)
    ensures |parts| == Count(s, sep) + 1
    ensures forall i :: 0 <= i < |parts| ==> sep !in parts[i]
    decreases |s|
  {
    if s == [] then [[]]
    else
      var rest := Split(s[1..], sep);
      if s[0] == sep then [[]] + rest
      else [[s[0]] + rest[0]] + rest[1..]
  }

  /** Joining a longer list: the first part, a separator, the rest. */
  lemma JoinCons(p: seq<byte>, rest: seq<seq<byte>>, sep: byte)
    requires |rest| >= 1
    ensures Join([p] + rest, sep) == p + [sep] + Join(rest, sep)
  {
    assert ([p] + rest)[1..] == rest;
  }

  /** Prepending a byte to the first part prepends it to the join. */
  lemma JoinGlue(c: byte, rest: seq<seq<byte>>, sep: byte)
    requires |rest| >= 1
    ensures Join([[c] + rest[0]] + rest[1..], sep) == [c] + Join(rest, sep)
  {
    if |rest| > 1 {
      JoinCons([c] + rest[0], rest[1..], sep);
      JoinCons(rest[0], rest[1..], sep);
      assert rest == [rest[0]] + rest[1..];
    } else {
      assert rest[1..] == [];
      assert [[c] + rest[0]] + rest[1..] == [[c] + rest[0]];
    }
  }

  /** Joining the parts with the separator gives back the input. */
  lemma {:induction false} JoinSplit(s: seq<byte>, sep: byte)
    ensures Join(Split(s, sep), sep) == s
    decreases |s|
  {
    if s != [] {
      var rest := Split(s[1..], sep);
      JoinSplit(s[1..], sep);
      if s[0] == sep {
        JoinCons([], rest, sep);
      } else {
        JoinGlue(s[0], rest, sep);
      }
      assert s == [s[0]] + s[1..];
    }
  }

  /** A byte other than the separator in front joins the first part. */
  lemma SplitOtherFirst(c: byte, z: seq<byte>, sep: byte)
    requires c != sep
    ensures Split([c] + z, sep) == [[c] + Split(z, sep)[0]] + Split(z, sep)[1..]
  {
    assert ([c] + z)[1..] == z;
  }

  /** Moving the head of `x` out of `x + z`; stated on its own so that
      SplitSepFreePrefix is proved without regrouping sequences next to
      unfolded Split terms. */
  lemma ConsAppend(x: seq<byte>, z: seq<byte>)
    requires x != []
    ensures [x[0]] + (x[1..] + z) == x + z
  {
    assert x == [x[0]] + x[1..];
  }

  /** Splitting `x + y` where `x` holds no separator: `x` is glued onto the
      first part of `y`'s split, the other parts are unchanged. */
  lemma {:induction false} SplitSepFreePrefix(x: seq<byte>, y: seq<byte>, sep: byte)
    requires sep !in x
    ensures Split(x + y, sep) == [x + Split(y, sep)[0]] + Split(y, sep)[1..]
    decreases |x|
  {
    var parts := Split(y, sep);
    if x == [] {
      assert x + y == y;
      assert x + parts[0] == parts[0];
      assert parts == [parts[0]] + parts[1..];
    } else {
      var tail := x[1..];
      SplitSepFreePrefix(tail, y, sep);
      assert x + y == [x[0]] + (tail + y);
      SplitOtherFirst(x[0], tail + y, sep);
      ConsAppend(x, parts[0]);
    }
  }

  /** A separator in front starts a new, empty, first part. */
  lemma SplitSepFirst(y: seq<byte>, sep: byte)
    ensures Split([sep] + y, sep) == [[]] + Split(y, sep)
  {
    assert ([sep] + y)[1..] == y;
  }

  /** The separator alone splits into two empty parts. */
  lemma SplitSeparatorOnly(sep: byte)
    ensures Split([sep], sep) == [[], []]
  {
    SplitSepFirst([], sep);
    assert [sep] + [] == [sep];
  }

  /** Go documents that a string without the separator splits into itself. */
  lemma {:induction false} SplitNoSeparator(s: seq<byte>, sep: byte)
    requires sep !in s
    ensures Split(s, sep) == [s]
  {
    SplitSepFreePrefix(s, [], sep);
    assert s + [] == s;
  }

  /** Split undoes Join: a non-empty list of separator-free parts is
      recovered from its join. Together with JoinSplit this says the two are
      inverse bijections between byte strings and such lists. */
  lemma {:induction false} SplitJoin(parts: seq<seq<byte>>, sep: byte)
    requires |parts| >= 1
    requires forall i :: 0 <= i < |parts| ==> sep !in parts[i]
    ensures Split(Join(parts, sep), sep) == parts
    decreases |parts|
  {
    if |parts| == 1 {
      SplitNoSeparator(parts[0], sep);
    } else {
      var tail := parts[1..];
      SplitJoin(tail, sep);
      var rest := [sep] + Join(tail, sep);
      assert Join(parts, sep) == parts[0] + rest;
      SplitSepFreePrefix(parts[0], rest, sep);
      SplitSepFirst(Join(tail, sep), sep);
      assert Split(rest, sep) == [[]] + tail;
      assert parts[0] + [] == parts[0];
      assert parts == [parts[0]] + tail;
    }
  }
}
