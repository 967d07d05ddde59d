/**
 Three-way comparison.  A comparator `C` is a total preorder when `C(b, a)` is the flip of
 `C(a, b)` and every triple satisfies `Composes(C(a, b), C(b, c), C(a, c))`.
 */
module Orderings {
  datatype Cmp = Less | Equal | Greater {
    function Flip(): Cmp {
      match this
      case Less => Greater
      case Equal => Equal
      case Greater => Less
    }

    /** The first difference decides. */
    function Then(next: Cmp): Cmp {
      if Equal? then next else this
    }
  }

  ghost predicate Composes(ab: Cmp, bc: Cmp, ac: Cmp) {
    && (ab.Equal? ==> ac == bc)
    && (bc.Equal? ==> ac == ab)
    && (ab == bc ==> ac == ab)
  }

  /** Deciding ties by a second preorder gives a preorder. */
  lemma ThenComposes(ab: Cmp, bc: Cmp, ac: Cmp, ab': Cmp, bc': Cmp, ac': Cmp)
    requires Composes(ab, bc, ac) && Composes(ab', bc', ac')
    ensures Composes(ab.Then(ab'), bc.Then(bc'), ac.Then(ac'))
  {
  }

  function CmpInt(a: int, b: int): Cmp {
    if a < b then Less else if a == b then Equal else Greater
  }

  /** `str::cmp`: code points from the left, a proper prefix first. */
  function CmpString(a: string, b: string): Cmp {
    if a == [] || b == [] then CmpInt(|a|, |b|)
    else if a[0] != b[0] then CmpInt(a[0] as int, b[0] as int)
    else CmpString(a[1..], b[1..])
  }

  lemma CmpStringDual(a: string, b: string)
    ensures CmpString(b, a) == CmpString(a, b).Flip()
  {
  }

  lemma {:induction false} CmpStringEqual(a: string, b: string)
    ensures CmpString(a, b).Equal? <==> a == b
  {
    if a != [] && b != [] && a[0] == b[0] {
      CmpStringEqual(a[1..], b[1..]);
      assert a == [a[0]] + a[1..] && b == [b[0]] + b[1..];
    }
  }

  lemma {:induction false} CmpStringComposes(a: string, b: string, c: string)
    ensures Composes(CmpString(a, b), CmpString(b, c), CmpString(a, c))
  {
    if a != [] && b != [] && c != [] && a[0] == b[0] == c[0] {
      CmpStringComposes(a[1..], b[1..], c[1..]);
    }
  }

  /** Dictionary order of texts: at the first difference a smaller character, or the end. */
  ghost predicate TextBefore(a: string, b: string) {
    exists i: nat :: BeforeAt(a, b, i)
  }

  ghost predicate BeforeAt(a: string, b: string, i: nat) {
    && i <= |a| && i < |b|
    && (forall j: nat | j < i :: a[j] == b[j])
    && (i == |a| || a[i] < b[i])
  }

  lemma {:induction false} CmpStringExactly(a: string, b: string)
    ensures CmpString(a, b).Less? <==> TextBefore(a, b)
  {
    if a == [] {
      assert b != [] ==> BeforeAt(a, b, 0);
    } else if b != [] {
      if a[0] < b[0] {
        assert BeforeAt(a, b, 0);
      } else if a[0] == b[0] {
        CmpStringExactly(a[1..], b[1..]);
        if i: nat :| BeforeAt(a[1..], b[1..], i) {
          BeforeInRest(a, b, i);
        }
        if i: nat :| BeforeAt(a, b, i) {
          assert i > 0;
          BeforeInRest(a, b, i - 1);
        }
      }
    }
  }

  lemma BeforeInRest(a: string, b: string, i: nat)
    requires a != [] && b != [] && a[0] == b[0]
    ensures BeforeAt(a, b, i + 1) <==> BeforeAt(a[1..], b[1..], i)
  {
    if BeforeAt(a[1..], b[1..], i) {
      forall j: nat | j < i + 1 ensures a[j] == b[j] {
        assert j > 0 ==> a[j] == a[1..][j - 1] && b[j] == b[1..][j - 1];
      }
    }
    if BeforeAt(a, b, i + 1) {
      forall j: nat | j < i ensures a[1..][j] == b[1..][j] {
        assert a[1..][j] == a[j + 1] && b[1..][j] == b[j + 1];
      }
    }
  }
}
