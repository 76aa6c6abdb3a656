/** Options, finite sets and alignment. */
module Collections {

  datatype Option<T> = None | Some(value: T)

  /** The next multiple of four: (n + 3) & ~3 */
  function Align(n: int): (r: int)
    ensures n <= r < n + 4 && r % 4 == 0
  {
    (n + 3) / 4 * 4
  }

  lemma {:induction false} SubsetSize<T>(a: set<T>, b: set<T>)
    requires a <= b
    ensures |a| <= |b|
  {
    if a != {} {
      var x :| x in a;
      SubsetSize(a - {x}, b - {x});
    }
  }

  predicate IsMin(s: set<int>, m: int) { m in s && forall id <- s :: m <= id }

  function Min(s: set<int>): (m: int)
    requires s != {}
    ensures IsMin(s, m)
  {
    MinExists(s);
    var m :| IsMin(s, m);
    m
  }

  lemma Pick<T>(s: set<T>) returns (x: T)
    requires s != {}
    ensures x in s
  {
    x :| x in s;
  }

  lemma {:induction false} MinExists(s: set<int>)
    requires s != {}
    ensures exists m :: IsMin(s, m)
    decreases |s|
  {
    var x := Pick(s);
    var rest := s - {x};
    if rest == {} {
      forall id | id in s ensures x <= id {
        assert id != x ==> id in rest;
      }
      assert IsMin(s, x);
    } else {
      MinExists(rest);
      var y :| IsMin(rest, y);
      var m := if x < y then x else y;
      forall id | id in s ensures m <= id {
        assert id == x || id in rest;
      }
      assert IsMin(s, m);
    }
  }
}
