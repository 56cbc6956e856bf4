/** Go maps in memory: references that several holders may share, so that only a map made anew and filled
    entry by entry is a holder's own. */
module GoMaps {
  import opened Basics

  class GoMap<K(==), V> {
    var m: map<K, V>

    constructor ()
      ensures m == map[]
    {
      m := map[];
    }

    /** make and a loop that visits the entries in any order. */
    method Copy() returns (c: GoMap<K, V>)
      ensures fresh(c) && c.m == m
    {
      c := new GoMap();
      var todo := m.Keys;
      while todo != {}
        invariant todo <= m.Keys && c.m == m - todo && fresh(c)
        decreases todo
      {
        var k :| k in todo;
        CopyEntry(m, todo, k);
        c.m := c.m[k := m[k]];
        todo := todo - {k};
      }
    }
  }
}
