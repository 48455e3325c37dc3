/** Cutting a sequence at a separator and putting the pieces back together. */
module Lines {

  newtype Byte = x: int | 0 <= x < 256
  type Bytes = seq<Byte>

  /** `s.split(sep)` for a one-element separator: always at least one piece. */
  function Split<T(==)>(s: seq<T>, sep: T): (r: seq<seq<T>>)
    ensures |r| >= 1
    ensures forall i :: 0 <= i < |r| ==> sep !in r[i]
  {
    if s == [] then [[]]
    else
      var r := Split(s[1..], sep);
      if s[0] == sep then [[]] + r else [[s[0]] + r[0]] + r[1..]
  }

  /** `sep.join(parts)` */
  function Join<T>(parts: seq<seq<T>>, sep: seq<T>): seq<T> {
    if parts == [] then []
    else if |parts| == 1 then parts[0]
    else parts[0] + sep + Join(parts[1..], sep)
  }

  /** Every piece followed by the separator. */
  function Terminated<T>(parts: seq<seq<T>>, sep: seq<T>): seq<T> {
    if parts == [] then [] else parts[0] + sep + Terminated(parts[1..], sep)
  }

  lemma {:induction false} JoinOfSplit<T>(s: seq<T>, sep: T)
    ensures Join(Split(s, sep), [sep]) == s
  {
    if s != [] {
      JoinOfSplit(s[1..], sep);
      var r := Split(s[1..], sep);
      if s[0] == sep {
        assert ([[]] + r)[1..] == r;
      } else {
        assert ([[s[0]] + r[0]] + r[1..])[1..] == r[1..];
      }
    }
  }

  lemma {:induction false} SplitFirst<T>(part: seq<T>, rest: seq<T>, sep: T)
    requires sep !in part
    ensures Split(part + [sep] + rest, sep) == [part] + Split(rest, sep)
    ensures Split(part, sep) == [part]
  {
    if part == [] {
      assert (part + [sep] + rest)[1..] == rest;
    } else {
      assert (part + [sep] + rest)[1..] == part[1..] + [sep] + rest;
      SplitFirst(part[1..], rest, sep);
      assert [part[0]] + part[1..] == part;
    }
  }

  lemma {:induction false} SplitOfJoin<T>(parts: seq<seq<T>>, sep: T)
    requires parts != [] && forall i :: 0 <= i < |parts| ==> sep !in parts[i]
    ensures Split(Join(parts, [sep]), sep) == parts
  {
    JoinFirst(parts, [sep]);
    hide Split, Join;
    if |parts| == 1 {
      SplitFirst(parts[0], [], sep);
    } else {
      var rest := parts[1..];
      SplitOfJoin(rest, sep);
      SplitFirst(parts[0], Join(rest, [sep]), sep);
      assert [parts[0]] + rest == parts;
    }
  }

  lemma {:induction false} JoinFirst<T>(parts: seq<seq<T>>, sep: seq<T>)
    requires parts != []
    ensures Join(parts, sep) == if |parts| == 1 then parts[0] else parts[0] + sep + Join(parts[1..], sep)
  {
  }

  lemma {:induction false} TerminatedIsJoin<T>(parts: seq<seq<T>>, sep: seq<T>)
    requires parts != []
    ensures Terminated(parts, sep) == Join(parts, sep) + sep
  {
    if |parts| > 1 { TerminatedIsJoin(parts[1..], sep); }
  }

  lemma {:induction false} TerminatedConcat<T>(a: seq<seq<T>>, b: seq<seq<T>>, sep: seq<T>)
    ensures Terminated(a + b, sep) == Terminated(a, sep) + Terminated(b, sep)
  {
    if a == [] {
      assert a + b == b;
    } else {
      assert (a + b)[1..] == a[1..] + b;
      TerminatedConcat(a[1..], b, sep);
    }
  }

  /** Lines that each end in the separator split into themselves and an empty last
      piece. */
  lemma {:induction false} SplitTerminated<T>(parts: seq<seq<T>>, sep: T)
    requires forall i :: 0 <= i < |parts| ==> sep !in parts[i]
    ensures Split(Terminated(parts, [sep]), sep) == parts + [[]]
  {
    if parts != [] {
      SplitTerminated(parts[1..], sep);
      SplitFirst(parts[0], Terminated(parts[1..], [sep]), sep);
    }
  }
}
