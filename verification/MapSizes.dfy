/** The size of a map with and without some keys. */
module MapSizes {
  lemma SizeWith<V>(m: map<string, V>, k: string, v: V)
    ensures |m[k := v]| == if k in m then |m| else |m| + 1
  {
    assert m[k := v].Keys == m.Keys + {k};
    assert |m[k := v]| == |m[k := v].Keys| && |m| == |m.Keys|;
  }

  lemma SizeWithout<V>(m: map<string, V>, k: string)
    ensures |m - {k}| == if k in m then |m| - 1 else |m|
  {
    assert (m - {k}).Keys == m.Keys - {k};
    assert |m - {k}| == |(m - {k}).Keys| && |m| == |m.Keys|;
  }

  lemma SizeLess<V>(m: map<string, V>, ks: set<string>)
    ensures |m - ks| <= |m|
  {
    assert (m - ks).Keys <= m.Keys;
    assert m.Keys == (m - ks).Keys + (m.Keys - (m - ks).Keys);
    assert |m - ks| == |(m - ks).Keys| && |m| == |m.Keys|;
  }
}
