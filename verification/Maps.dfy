/** Sizes of finite maps. */
module Maps {

  lemma InsertSize<K, V>(m: map<K, V>, key: K, value: V)
    ensures |m[key := value]| == if key in m then |m| else |m| + 1
  {
    assert m[key := value].Keys == m.Keys + {key};
    assert |m.Keys| == |m| && |m[key := value].Keys| == |m[key := value]|;
  }

  lemma RemoveSize<K, V>(m: map<K, V>, gone: set<K>)
    requires gone <= m.Keys
    ensures |m - gone| == |m| - |gone|
  {
    assert (m - gone).Keys == m.Keys - gone;
    assert |m.Keys| == |m| && |(m - gone).Keys| == |m - gone|;
  }

  lemma SubmapSize<K, V>(part: map<K, V>, m: map<K, V>)
    requires part.Keys <= m.Keys
    ensures |part| <= |m|
  {
    assert m.Keys == part.Keys + (m.Keys - part.Keys);
    assert |m.Keys| == |m| && |part.Keys| == |part|;
  }
}
