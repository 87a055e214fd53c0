/** Option datatype shared by the parser and the conversion. */
module Wrappers {
  datatype Option<+T> = None | Some(value: T)
}

/** Small facts about sequence slicing and concatenation, stated once so that
    the proofs that use them stay cheap. */
module Sequences {
  lemma SplitAt<T>(s: seq<T>, k: nat)
    requires k <= |s|
    ensures s == s[..k] + s[k..]
  {
  }

  lemma Associative<T>(x: seq<T>, y: seq<T>, z: seq<T>)
    ensures x + (y + z) == x + y + z
  {
  }

  lemma Associative4<T>(w: seq<T>, x: seq<T>, y: seq<T>, z: seq<T>)
    ensures w + x + y + z == w + (x + (y + z))
  {
  }

  lemma SlicesOfConcat<T>(x: seq<T>, y: seq<T>)
    ensures (x + y)[..|x|] == x && (x + y)[|x|..] == y
  {
  }

  lemma Regroup<T>(a: seq<T>, x: seq<T>, m: seq<T>, y: seq<T>, b: seq<T>)
    ensures a + (x + m + y) + b == (a + x) + m + (y + b)
  {
    calc {
      a + (x + m + y) + b;
      { Associative4(a, x, m, y); }
      a + (x + (m + y)) + b;
      { Associative(a, x, m + y); }
      (a + x) + (m + y) + b;
      { Associative(a + x, m + y, b); Associative(m, y, b); Associative(a + x, m, y + b); }
      (a + x) + m + (y + b);
    }
  }
}
