/** How often a sequence of entries covers a page, and how many pages it holds. */
module Runs {
  import opened PageEntry

  /** The sum of `f` over the sequence, counting repetitions. */
  function Sum(s: seq<Word>, f: Word -> nat): nat {
    if s == [] then 0 else f(s[0]) + Sum(s[1..], f)
  }

  function CoverOf(p: int): Word -> nat { e => if Covers(e, p) then 1 else 0 }

  function CountOf(): Word -> nat { e => Count(e) }

  /** The number of entries of `s` that cover page `p`. */
  function Cover(s: seq<Word>, p: int): nat { Sum(s, CoverOf(p)) }

  /** The number of pages the entries of `s` hold, counting overlaps. */
  function Total(s: seq<Word>): nat { Sum(s, CountOf()) }

  ghost predicate AllInReach(s: seq<Word>) { forall i :: 0 <= i < |s| ==> InReach(s[i]) }

  predicate AllZero(s: seq<Word>) { forall i :: 0 <= i < |s| ==> s[i] == 0 }

  lemma {:induction false} SumConcat(s: seq<Word>, t: seq<Word>, f: Word -> nat)
    ensures Sum(s + t, f) == Sum(s, f) + Sum(t, f)
  {
    if s == [] {
      assert s + t == t;
    } else {
      assert (s + t)[1..] == s[1..] + t;
      SumConcat(s[1..], t, f);
    }
  }

  lemma SumOne(e: Word, f: Word -> nat)
    ensures Sum([e], f) == f(e)
  {
  }

  lemma SumUpdate(s: seq<Word>, i: nat, e: Word, f: Word -> nat)
    requires i < |s|
    ensures Sum(s[i := e], f) == Sum(s, f) - f(s[i]) + f(e)
  {
    assert s == s[..i] + ([s[i]] + s[i + 1..]);
    assert s[i := e] == s[..i] + ([e] + s[i + 1..]);
    SumConcat(s[..i], [s[i]] + s[i + 1..], f);
    SumConcat(s[..i], [e] + s[i + 1..], f);
  }

  lemma {:induction false} SumPermuted(s: seq<Word>, t: seq<Word>, f: Word -> nat)
    requires multiset(s) == multiset(t)
    ensures Sum(s, f) == Sum(t, f)
    decreases |s|
  {
    if s == [] {
      assert |multiset(t)| == 0;
    } else {
      var e := s[0];
      assert e in multiset(t);
      var i :| 0 <= i < |t| && t[i] == e;
      var u := t[..i] + t[i + 1..];
      assert s == [e] + s[1..];
      assert t == t[..i] + ([e] + t[i + 1..]);
      assert multiset(s[1..]) == multiset(s) - multiset{e};
      assert multiset(u) == multiset(t) - multiset{e};
      SumPermuted(s[1..], u, f);
      SumConcat(t[..i], t[i + 1..], f);
      SumConcat(t[..i], [e] + t[i + 1..], f);
    }
  }

  /** A covered page is covered by some entry, and the other way round. */
  lemma {:induction false} CoverWitness(s: seq<Word>, p: int)
    ensures Cover(s, p) > 0 <==> exists i :: 0 <= i < |s| && Covers(s[i], p)
  {
    if s != [] {
      CoverWitness(s[1..], p);
      if Cover(s, p) > 0 && !Covers(s[0], p) {
        var i :| 0 <= i < |s[1..]| && Covers(s[1..][i], p);
        assert Covers(s[i + 1], p);
      }
      if i :| 0 <= i < |s| && Covers(s[i], p) {
        if i > 0 {
          assert Covers(s[1..][i - 1], p);
        }
      }
    }
  }

  lemma {:induction false} CoverOfZeros(s: seq<Word>, p: int)
    requires AllZero(s)
    ensures Cover(s, p) == if p == 0 then |s| else 0
  {
    if s != [] {
      CoverOfZeros(s[1..], p);
    }
  }

  lemma {:induction false} TotalOfZeros(s: seq<Word>)
    requires AllZero(s)
    ensures Total(s) == |s|
  {
    if s != [] {
      TotalOfZeros(s[1..]);
    }
  }

  lemma PermutedInReach(s: seq<Word>, t: seq<Word>)
    requires multiset(s) == multiset(t) && AllInReach(s)
    ensures AllInReach(t)
  {
    forall i | 0 <= i < |t| ensures InReach(t[i]) {
      assert t[i] in multiset(s);
    }
  }

  lemma PermutedZero(s: seq<Word>, t: seq<Word>)
    requires multiset(s) == multiset(t) && AllZero(s)
    ensures AllZero(t)
  {
    forall i | 0 <= i < |t| ensures t[i] == 0 {
      assert t[i] in multiset(s);
    }
  }
}
