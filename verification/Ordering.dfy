/** Text order by code point, as Python and SQLite compare strings. */
module Ordering {

  predicate Less(a: string, b: string) {
    if b == [] then false
    else if a == [] then true
    else if a[0] != b[0] then a[0] < b[0]
    else Less(a[1..], b[1..])
  }

  lemma {:induction false} LessTransitive(a: string, b: string, c: string)
    requires Less(a, b) && Less(b, c)
    ensures Less(a, c)
    decreases |a|
  {
    if a != [] && a[0] == b[0] == c[0] {
      LessTransitive(a[1..], b[1..], c[1..]);
    }
  }

  /** Exactly one of less, equal and greater. */
  lemma {:induction false} LessTotal(a: string, b: string)
    ensures a != b ==> Less(a, b) || Less(b, a)
    ensures !(Less(a, b) && Less(b, a)) && !Less(a, a)
    decreases |a|
  {
    if a != [] && b != [] {
      LessTotal(a[1..], b[1..]);
      LessTotal(a[1..], a[1..]);
      if a[0] == b[0] && a[1..] == b[1..] {
        assert a == [a[0]] + a[1..] == b;
      }
    } else if a != [] {
      LessTotal(a[1..], a[1..]);
    }
  }

  /** One text is less when it is a proper beginning of the other, or has the smaller
      character where they first differ. */
  lemma {:induction false} LessSpelled(a: string, b: string)
    ensures Less(a, b) <==>
            exists k :: 0 <= k <= |a| && k < |b| && a[..k] == b[..k] && (k == |a| || a[k] < b[k])
    decreases |a|
  {
    if a != [] && b != [] {
      LessSpelled(a[1..], b[1..]);
      if Less(a, b) {
        if a[0] == b[0] {
          var k :| 0 <= k <= |a[1..]| && k < |b[1..]| && a[1..][..k] == b[1..][..k]
                   && (k == |a[1..]| || a[1..][k] < b[1..][k]);
          assert a[..k + 1] == [a[0]] + a[1..][..k] == [b[0]] + b[1..][..k] == b[..k + 1];
        } else {
          assert a[..0] == b[..0];
        }
      }
      if k :| 0 <= k <= |a| && k < |b| && a[..k] == b[..k] && (k == |a| || a[k] < b[k]) {
        if k > 0 {
          assert a[0] == a[..k][0] == b[..k][0] == b[0];
          assert a[1..][..k - 1] == a[..k][1..] == b[..k][1..] == b[1..][..k - 1];
        }
      }
    } else if b != [] {
      assert a[..0] == b[..0];
    }
  }

  ghost predicate Sorted(list: seq<string>) {
    forall i, j :: 0 <= i < j < |list| ==> Less(list[i], list[j])
  }

  predicate IsLeast(m: string, texts: set<string>) {
    m in texts && forall x :: x in texts && x != m ==> Less(m, x)
  }

  lemma {:induction false} LeastExists(texts: set<string>)
    requires texts != {}
    ensures exists m :: IsLeast(m, texts)
    ensures forall a, b :: IsLeast(a, texts) && IsLeast(b, texts) ==> a == b
  {
    var t :| t in texts;
    var rest := texts - {t};
    if rest != {} {
      LeastExists(rest);
      var m :| IsLeast(m, rest);
      LessTotal(t, m);
      var least := if Less(t, m) then t else m;
      forall x | x in texts && x != least ensures Less(least, x) {
        if least == t && x != m {
          LessTransitive(t, m, x);
        }
      }
      assert IsLeast(least, texts);
    } else {
      assert texts == {t};
      assert IsLeast(t, texts);
    }
    forall a, b | IsLeast(a, texts) && IsLeast(b, texts) ensures a == b {
      LessTotal(a, b);
    }
  }

  /** sorted(texts) */
  function SortedSet(texts: set<string>): (list: seq<string>)
    ensures Sorted(list) && (forall t :: t in list <==> t in texts) && |list| == |texts|
  {
    if texts == {} then []
    else
      LeastExists(texts);
      var m :| IsLeast(m, texts);
      SortedCons(m, texts, SortedSet(texts - {m}));
      [m] + SortedSet(texts - {m})
  }

  lemma SortedCons(m: string, texts: set<string>, rest: seq<string>)
    requires IsLeast(m, texts) && Sorted(rest) && (forall t :: t in rest <==> t in texts - {m})
               && |rest| == |texts - {m}|
    ensures var list := [m] + rest; Sorted(list) && (forall t :: t in list <==> t in texts) && |list| == |texts|
  {
    var list := [m] + rest;
    forall i, j | 0 <= i < j < |list| ensures Less(list[i], list[j]) {
      assert list[j] == rest[j - 1] && rest[j - 1] in rest;
    }
  }
}
