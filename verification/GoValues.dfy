/** Go strings as byte sequences, the string order `<`, nilable values, and mapping over lists. */
module GoValues {

  newtype byte = x: int | 0 <= x < 256

  type Str = seq<byte>

  const EMPTY: Str := []

  datatype Option<+T> = None | Some(value: T)

  /** `aws.StringValue`: a nil pointer reads as the empty string. */
  function StringValue(p: Option<Str>): Str {
    if p.Some? then p.value else EMPTY
  }

  function Map<A, B>(f: A -> B, xs: seq<A>): (ys: seq<B>)
    ensures |ys| == |xs|
    ensures forall i :: 0 <= i < |xs| ==> ys[i] == f(xs[i])
  {
    seq(|xs|, i requires 0 <= i < |xs| => f(xs[i]))
  }

  /** Go's `<` on strings: bytewise lexicographic. */
  predicate Less(a: Str, b: Str) {
    |b| > 0 && (|a| == 0 || a[0] < b[0] || (a[0] == b[0] && Less(a[1..], b[1..])))
  }

  predicate AtMost(a: Str, b: Str) {
    !Less(b, a)
  }

  /** Any two strings are ordered one way, the other, or equal: the order is total. */
  lemma {:induction false} Trichotomy(a: Str, b: Str)
    ensures Less(a, b) || Less(b, a) || a == b
    ensures !(Less(a, b) && Less(b, a))
    ensures !Less(a, a)
    decreases |a|
  {
    if |a| > 0 {
      Trichotomy(a[1..], a[1..]);
      if |b| > 0 && a[0] == b[0] {
        Trichotomy(a[1..], b[1..]);
        if a[1..] == b[1..] {
          assert a == [a[0]] + a[1..] == b;
        }
      }
    }
  }

  lemma {:induction false} Transitive(a: Str, b: Str, c: Str)
    requires AtMost(a, b) && AtMost(b, c)
    ensures AtMost(a, c)
    decreases |a|
  {
    if Less(c, a) && |c| > 0 && |b| > 0 && c[0] == b[0] == a[0] {
      Transitive(a[1..], b[1..], c[1..]);
    }
  }

  /** The first difference decides; a proper prefix comes first. */
  lemma {:induction false} LessIsFirstDifference(a: Str, b: Str)
    ensures Less(a, b) <==>
            exists n :: 0 <= n <= |a| && n < |b| && a[..n] == b[..n] && (n == |a| || a[n] < b[n])
    decreases |a|
  {
    if |b| > 0 && (|a| == 0 || a[0] < b[0]) {
      assert a[..0] == b[..0];
    } else if |a| > 0 && |b| > 0 && a[0] == b[0] {
      var a', b' := a[1..], b[1..];
      LessIsFirstDifference(a', b');
      if n :| 0 <= n <= |a'| && n < |b'| && a'[..n] == b'[..n] && (n == |a'| || a'[n] < b'[n]) {
        assert a[..n + 1] == [a[0]] + a'[..n] && b[..n + 1] == [b[0]] + b'[..n];
      }
      if n :| 0 <= n <= |a| && n < |b| && a[..n] == b[..n] && (n == |a| || a[n] < b[n]) {
        assert n > 0 && a'[..n - 1] == a[..n][1..] && b'[..n - 1] == b[..n][1..];
      }
    } else if n :| 0 <= n <= |a| && n < |b| && a[..n] == b[..n] && (n == |a| || a[n] < b[n]) {
      assert n > 0 ==> a[..n][0] == b[..n][0];
    }
  }

  /** Nil reads as the empty string, any other pointer as its target. */
  lemma NilReadsEmpty(s: Str)
    ensures StringValue(None) == [] && StringValue(Some(s)) == s
  {
  }
}
