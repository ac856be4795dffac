/** Python's insertion-ordered `dict`, as an association list: assigning to a new
    key appends an entry, assigning to an existing key replaces its value in place. */
module OrderedDict {

  /** Keys and values are strings, as in the dicts the pipeline builds. */
  type Dict = seq<(string, string)>

  function Keys(d: Dict): seq<string>
  {
    seq(|d|, i requires 0 <= i < |d| => d[i].0)
  }

  predicate Distinct<T(==)>(s: seq<T>) {
    forall i, j :: 0 <= i < j < |s| ==> s[i] != s[j]
  }

  /** Dropping the last element keeps a sequence distinct, and that element
      occurs nowhere before it. */
  lemma DistinctInit<T>(s: seq<T>)
    requires Distinct(s) && |s| > 0
    ensures Distinct(s[..|s| - 1]) && s[|s| - 1] !in s[..|s| - 1]
  {
    var n := |s| - 1;
    forall i | 0 <= i < n ensures s[..n][i] != s[n] {
      assert s[..n][i] == s[i];
    }
  }

  /** A well-formed dict: no key occurs twice. */
  predicate Valid(d: Dict) {
    Distinct(Keys(d))
  }

  /** `d[k] = v`. */
  function Put(d: Dict, k: string, v: string): Dict {
    if |d| == 0 then [(k, v)]
    else if d[0].0 == k then [(k, v)] + d[1..]
    else [d[0]] + Put(d[1..], k, v)
  }

  /** Assignment never reorders keys: an existing key keeps its place, a new
      key goes last. */
  lemma {:induction false} PutKeys(d: Dict, k: string, v: string)
    ensures Keys(Put(d, k, v)) == if k in Keys(d) then Keys(d) else Keys(d) + [k]
  {
    var r := Put(d, k, v);
    if |d| == 0 {
      assert Keys(r) == [k];
    } else if d[0].0 == k {
      assert Keys(d)[0] == k;
      assert Keys(r) == Keys(d);
    } else {
      var ks := Keys(d[1..]);
      PutKeys(d[1..], k, v);
      assert Keys(r) == [d[0].0] + Keys(Put(d[1..], k, v));
      assert Keys(d) == [d[0].0] + ks;
      if k !in ks {
        assert [d[0].0] + (ks + [k]) == ([d[0].0] + ks) + [k];
      }
    }
  }

  /** Assigning to a new key appends the pair. */
  lemma {:induction false} PutAbsent(d: Dict, k: string, v: string)
    requires k !in Keys(d)
    ensures Put(d, k, v) == d + [(k, v)]
  {
    if |d| > 0 {
      assert Keys(d) == [d[0].0] + Keys(d[1..]);
      PutAbsent(d[1..], k, v);
      assert d == [d[0]] + d[1..];
    }
  }

  /** Assignment keeps the keys distinct. */
  lemma PutValid(d: Dict, k: string, v: string)
    requires Valid(d)
    ensures Valid(Put(d, k, v))
  {
    PutKeys(d, k, v);
    if k !in Keys(d) {
      var ks := Keys(d) + [k];
      forall i, j | 0 <= i < j < |ks| ensures ks[i] != ks[j] {
        if j == |ks| - 1 {
          assert ks[i] == Keys(d)[i];
        }
      }
    }
  }

  /** `d.get(k, default)`. */
  function Get(d: Dict, k: string, default: string): string {
    if |d| == 0 then default
    else if d[0].0 == k then d[0].1
    else Get(d[1..], k, default)
  }

  /** A key the dict lacks reads as the default. */
  lemma {:induction false} GetAbsent(d: Dict, k: string, default: string)
    requires k !in Keys(d)
    ensures Get(d, k, default) == default
  {
    if |d| > 0 {
      assert Keys(d) == [d[0].0] + Keys(d[1..]);
      GetAbsent(d[1..], k, default);
    }
  }

  /** In a well-formed dict, `get` finds the value stored at the key's position. */
  lemma {:induction false} GetAt(d: Dict, i: nat, default: string)
    requires Valid(d) && i < |d|
    ensures Get(d, d[i].0, default) == d[i].1
  {
    if i > 0 {
      assert Keys(d)[0] != Keys(d)[i];
      assert Keys(d[1..]) == Keys(d)[1..];
      GetAt(d[1..], i - 1, default);
    }
  }

  lemma {:induction false} GetPutSame(d: Dict, k: string, v: string, default: string)
    ensures Get(Put(d, k, v), k, default) == v
  {
    if |d| > 0 && d[0].0 != k {
      GetPutSame(d[1..], k, v, default);
    }
  }

  lemma {:induction false} GetPutOther(d: Dict, k: string, v: string, k': string, default: string)
    requires k' != k
    ensures Get(Put(d, k, v), k', default) == Get(d, k', default)
  {
    if |d| > 0 && d[0].0 != k && d[0].0 != k' {
      GetPutOther(d[1..], k, v, k', default);
    }
  }
}
