/** The word-ladder adjacency rule (`Graph._is_one_letter_apart`). */
module Words {

  type Word = string

  /** The number of positions at which `a` and `b` hold different characters,
      pairing the two strings position by position up to the shorter length
      (Python's `zip`). */
  function Mismatches(a: string, b: string): nat
  {
    if |a| == 0 || |b| == 0 then 0
    else (if a[0] != b[0] then 1 else 0) + Mismatches(a[1..], b[1..])
  }

  /** Two words are adjacent when they have the same length and exactly one
      position holds different characters. */
  predicate OneLetterApart(a: Word, b: Word)
  {
    |a| == |b| && Mismatches(a, b) == 1
  }

  /** Reference reading of the rule: `i` is the one and only position where
      the two equally long words disagree. */
  ghost predicate DiffersOnlyAt(a: Word, b: Word, i: int)
  {
    && |a| == |b|
    && 0 <= i < |a|
    && a[i] != b[i]
    && forall j :: 0 <= j < |a| && j != i ==> a[j] == b[j]
  }

  /** Equally long strings have no mismatch exactly when they are equal. */
  lemma {:induction false} NoMismatchIffEqual(a: string, b: string)
    requires |a| == |b|
    ensures Mismatches(a, b) == 0 <==> a == b
  {
    if |a| > 0 {
      NoMismatchIffEqual(a[1..], b[1..]);
      if a[0] == b[0] && a[1..] == b[1..] {
        assert a == [a[0]] + a[1..] && b == [b[0]] + b[1..];
      }
    }
  }

  /** The counting rule agrees with the reference reading: equal lengths and a
      single differing position. */
  lemma {:induction false} OneLetterApartIff(a: Word, b: Word)
    ensures OneLetterApart(a, b) <==> exists i :: DiffersOnlyAt(a, b, i)
  {
    if |a| == |b| && |a| > 0 {
      var a', b' := a[1..], b[1..];
      OneLetterApartIff(a', b');
      if a[0] != b[0] {
        NoMismatchIffEqual(a', b');
        if Mismatches(a, b) == 1 {
          assert DiffersOnlyAt(a, b, 0) by {
            forall j | 0 < j < |a| ensures a[j] == b[j] {
              assert a[j] == a'[j - 1] && b[j] == b'[j - 1];
            }
          }
        }
        if i :| DiffersOnlyAt(a, b, i) {
          assert i == 0;
          assert a' == b' by {
            forall j | 0 <= j < |a'| ensures a'[j] == b'[j] {
              assert a'[j] == a[j + 1] && b'[j] == b[j + 1];
            }
          }
        }
      } else {
        if Mismatches(a, b) == 1 {
          var i' :| DiffersOnlyAt(a', b', i');
          assert DiffersOnlyAt(a, b, i' + 1) by {
            forall j | 0 <= j < |a| && j != i' + 1 ensures a[j] == b[j] {
              if j > 0 {
                assert a[j] == a'[j - 1] && b[j] == b'[j - 1];
              }
            }
          }
        }
        if i :| DiffersOnlyAt(a, b, i) {
          assert i > 0;
          assert DiffersOnlyAt(a', b', i - 1) by {
            forall j | 0 <= j < |a'| && j != i - 1 ensures a'[j] == b'[j] {
              assert a'[j] == a[j + 1] && b'[j] == b[j + 1];
            }
          }
        }
      }
    }
  }

  /** Mismatch counting does not depend on argument order. */
  lemma {:induction false} MismatchesSymmetric(a: string, b: string)
    ensures Mismatches(a, b) == Mismatches(b, a)
  {
    if |a| > 0 && |b| > 0 {
      MismatchesSymmetric(a[1..], b[1..]);
    }
  }

  /** The rule is symmetric, so the graph it builds is undirected. */
  lemma OneLetterApartSymmetric(a: Word, b: Word)
    ensures OneLetterApart(a, b) <==> OneLetterApart(b, a)
  {
    MismatchesSymmetric(a, b);
  }

  /** No word is one letter apart from itself, so no self-loop can arise. */
  lemma OneLetterApartIrreflexive(a: Word)
    ensures !OneLetterApart(a, a)
  {
    NoMismatchIffEqual(a, a);
  }
}
