/** Strings as the chat client handles them: the substring test that
    `String.prototype.includes` performs and the concatenation of chunks. */
module Text {

  /** `pattern` occurs in `text` starting at index `i`. */
  predicate OccursAt(text: string, pattern: string, i: int) {
    0 <= i && i + |pattern| <= |text| && text[i..i + |pattern|] == pattern
  }

  /** `text.includes(pattern)`: scan `text` from the left for a position
      where `pattern` starts. The empty pattern is contained in every text. */
  predicate Contains(text: string, pattern: string)
    decreases |text|
  {
    pattern <= text || (|text| > 0 && Contains(text[1..], pattern))
  }

  /** The scan agrees with the positional definition of a substring. */
  lemma {:induction false} ContainsIff(text: string, pattern: string)
    ensures Contains(text, pattern) <==> exists i :: OccursAt(text, pattern, i)
    decreases |text|
  {
    if pattern <= text {
      assert OccursAt(text, pattern, 0);
    } else if |text| == 0 {
      assert forall i :: !OccursAt(text, pattern, i);
    } else {
      var rest := text[1..];
      ContainsIff(rest, pattern);
      forall i | OccursAt(rest, pattern, i) ensures OccursAt(text, pattern, i + 1) {
        assert rest[i..i + |pattern|] == text[i + 1..i + 1 + |pattern|];
      }
      forall j | OccursAt(text, pattern, j) ensures OccursAt(rest, pattern, j - 1) {
        assert j != 0;
        assert rest[j - 1..j - 1 + |pattern|] == text[j..j + |pattern|];
      }
      assert Contains(text, pattern) == Contains(rest, pattern);
    }
  }

  /** A text shorter than the pattern never contains it. */
  lemma {:induction false} ShorterNotContains(text: string, pattern: string)
    requires |text| < |pattern|
    ensures !Contains(text, pattern)
    decreases |text|
  {
    if |text| > 0 {
      ShorterNotContains(text[1..], pattern);
    }
  }

  /** Taking the first `k` elements keeps the head and takes `k - 1` of the rest. */
  lemma TakeCons<T>(s: seq<T>, k: nat)
    requires 0 < k <= |s|
    ensures s[..k] == [s[0]] + s[1..][..k - 1]
    ensures s[k..] == s[1..][k - 1..]
  {
  }

  lemma AppendAssoc<T>(x: seq<T>, y: seq<T>, z: seq<T>)
    ensures (x + y) + z == x + (y + z)
  {
  }

  /** The texts of `chunks` joined in order, as `+=` on a string builds them. */
  function Concat(chunks: seq<string>): string {
    if chunks == [] then "" else chunks[0] + Concat(chunks[1..])
  }

  lemma ConcatSingle(x: string)
    ensures Concat([x]) == x
  {
    assert [x][1..] == [];
    assert x + "" == x;
  }

  lemma ConcatPair(x: string, y: string)
    ensures Concat([x, y]) == x + y
  {
    assert [x, y][1..] == [y];
    ConcatSingle(y);
  }

  /** The first `k` texts joined: the first text, then `k - 1` of the rest. */
  lemma ConcatTakeCons(chunks: seq<string>, k: nat)
    requires 0 < k <= |chunks|
    ensures Concat(chunks[..k]) == chunks[0] + Concat(chunks[1..][..k - 1])
  {
    var p := chunks[..k];
    assert p[0] == chunks[0];
    assert p[1..] == chunks[1..][..k - 1];
  }

  lemma {:induction false} ConcatAppend(p: seq<string>, q: seq<string>)
    ensures Concat(p + q) == Concat(p) + Concat(q)
  {
    if p == [] {
      assert p + q == q;
    } else {
      assert (p + q)[1..] == p[1..] + q;
      ConcatAppend(p[1..], q);
    }
  }
}
