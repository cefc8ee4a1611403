/**
 * The parts of SQLite's query semantics the handlers depend on: `db.get`
 * (the first row, in table order, that the WHERE clause selects), WHERE
 * filters, and ORDER BY over TEXT columns under the BINARY collation, where
 * NULL sorts before every text and texts compare character by character.
 */
module Query {
  import opened Outcomes

  /** A nullable TEXT value: None is SQL NULL. */
  type SqlText = Option<string>

  datatype Direction = Asc | Desc

  /** `db.get`: the first row that satisfies the WHERE predicate, if any. */
  function FirstWhere<T>(rows: seq<T>, p: T -> bool): (r: Option<T>)
    ensures r.Some? ==> r.value in rows && p(r.value)
    ensures r.None? <==> forall x :: x in rows ==> !p(x)
  {
    if rows == [] then None
    else if p(rows[0]) then Some(rows[0])
    else FirstWhere(rows[1..], p)
  }

  /** A WHERE filter (or a DELETE's complement): the rows satisfying `p`, in table order. */
  function Where<T>(rows: seq<T>, p: T -> bool): (r: seq<T>)
    ensures forall x :: x in r ==> x in rows && p(x)
    ensures forall x :: x in rows && p(x) ==> x in r
    ensures |r| <= |rows|
  {
    if rows == [] then []
    else (if p(rows[0]) then [rows[0]] else []) + Where(rows[1..], p)
  }

  /** Strict order of texts under the BINARY collation: by code point, a proper prefix first. */
  predicate StrLt(a: string, b: string)
  {
    if a == [] then b != []
    else b != [] && (a[0] < b[0] || (a[0] == b[0] && StrLt(a[1..], b[1..])))
  }

  lemma {:induction false} StrLtIrreflexive(a: string)
    ensures !StrLt(a, a)
  {
    if a != [] {
      StrLtIrreflexive(a[1..]);
    }
  }

  lemma {:induction false} StrLtTransitive(a: string, b: string, c: string)
    requires StrLt(a, b) && StrLt(b, c)
    ensures StrLt(a, c)
  {
    if a != [] && a[0] == b[0] && b[0] == c[0] {
      StrLtTransitive(a[1..], b[1..], c[1..]);
    }
  }

  lemma {:induction false} StrLtTotal(a: string, b: string)
    ensures a == b || StrLt(a, b) || StrLt(b, a)
  {
    if a != [] && b != [] && a[0] == b[0] {
      StrLtTotal(a[1..], b[1..]);
      if a[1..] == b[1..] {
        assert a == [a[0]] + a[1..] && b == [b[0]] + b[1..];
      }
    }
  }

  /** Strict order of nullable texts: NULL first. */
  predicate TextLt(a: SqlText, b: SqlText)
  {
    match a
    case None => b.Some?
    case Some(x) => b.Some? && StrLt(x, b.value)
  }

  /** `TextLt` is a strict total order. */
  lemma TextLtStrictTotal(a: SqlText, b: SqlText, c: SqlText)
    ensures !TextLt(a, a)
    ensures TextLt(a, b) && TextLt(b, c) ==> TextLt(a, c)
    ensures a == b || TextLt(a, b) || TextLt(b, a)
  {
    if a.Some? {
      StrLtIrreflexive(a.value);
      if b.Some? {
        StrLtTotal(a.value, b.value);
        if c.Some? && TextLt(a, b) && TextLt(b, c) {
          StrLtTransitive(a.value, b.value, c.value);
        }
      }
    }
  }

  function Head(key: seq<SqlText>): SqlText
  {
    if key == [] then None else key[0]
  }

  function Tail(key: seq<SqlText>): seq<SqlText>
  {
    if key == [] then [] else key[1..]
  }

  /**
   * `ORDER BY c1 d1, c2 d2, ...`: row key `a` may come before row key `b`.
   * The first column on which they differ decides, in its direction; keys
   * equal on every column may come in either order.
   */
  predicate KeyLe(dirs: seq<Direction>, a: seq<SqlText>, b: seq<SqlText>)
  {
    if dirs == [] then true
    else if Head(a) == Head(b) then KeyLe(dirs[1..], Tail(a), Tail(b))
    else if dirs[0] == Asc then TextLt(Head(a), Head(b))
    else TextLt(Head(b), Head(a))
  }

  lemma {:induction false} KeyLeTotal(dirs: seq<Direction>, a: seq<SqlText>, b: seq<SqlText>)
    ensures KeyLe(dirs, a, b) || KeyLe(dirs, b, a)
  {
    if dirs != [] {
      TextLtStrictTotal(Head(a), Head(b), Head(a));
      if Head(a) == Head(b) {
        KeyLeTotal(dirs[1..], Tail(a), Tail(b));
      }
    }
  }

  lemma {:induction false} KeyLeTransitive(dirs: seq<Direction>, a: seq<SqlText>, b: seq<SqlText>, c: seq<SqlText>)
    requires KeyLe(dirs, a, b) && KeyLe(dirs, b, c)
    ensures KeyLe(dirs, a, c)
  {
    if dirs != [] {
      var x, y, z := Head(a), Head(b), Head(c);
      TextLtStrictTotal(x, y, z);
      TextLtStrictTotal(z, y, x);
      TextLtStrictTotal(x, z, y);
      TextLtStrictTotal(y, x, z);
      if x == y && y == z {
        KeyLeTransitive(dirs[1..], Tail(a), Tail(b), Tail(c));
      }
    }
  }

  /** The rows of `s` appear in an order the ORDER BY clause allows. */
  ghost predicate Ordered<T>(s: seq<T>, dirs: seq<Direction>, key: T -> seq<SqlText>)
  {
    forall i, j :: 0 <= i < j < |s| ==> KeyLe(dirs, key(s[i]), key(s[j]))
  }

  /** Places `x` before the first row it may precede. */
  function Insert<T>(x: T, s: seq<T>, dirs: seq<Direction>, key: T -> seq<SqlText>): (r: seq<T>)
    ensures multiset(r) == multiset(s) + multiset{x}
  {
    if s == [] || KeyLe(dirs, key(x), key(s[0])) then [x] + s
    else
      assert s == [s[0]] + s[1..];
      [s[0]] + Insert(x, s[1..], dirs, key)
  }

  lemma {:induction false} InsertOrdered<T>(x: T, s: seq<T>, dirs: seq<Direction>, key: T -> seq<SqlText>)
    requires Ordered(s, dirs, key)
    ensures Ordered(Insert(x, s, dirs, key), dirs, key)
  {
    var r := Insert(x, s, dirs, key);
    if s == [] {
    } else if KeyLe(dirs, key(x), key(s[0])) {
      assert r == [x] + s;
      forall j | 1 <= j < |r| ensures KeyLe(dirs, key(r[0]), key(r[j])) {
        if j > 1 {
          KeyLeTransitive(dirs, key(x), key(s[0]), key(s[j - 1]));
        }
      }
    } else {
      var tail := Insert(x, s[1..], dirs, key);
      assert r == [s[0]] + tail;
      InsertOrdered(x, s[1..], dirs, key);
      KeyLeTotal(dirs, key(x), key(s[0]));
      forall j | 0 <= j < |tail| ensures KeyLe(dirs, key(s[0]), key(tail[j])) {
        assert tail[j] in multiset(tail);
        if tail[j] != x {
          assert tail[j] in multiset(s[1..]);
          var k :| 0 <= k < |s[1..]| && s[1..][k] == tail[j];
          assert s[k + 1] == tail[j];
        }
      }
      assert forall j :: 1 <= j < |r| ==> r[j] == tail[j - 1];
    }
  }

  /** `ORDER BY`: the rows in an order the clause allows (insertion sort). */
  function OrderBy<T>(s: seq<T>, dirs: seq<Direction>, key: T -> seq<SqlText>): (r: seq<T>)
    ensures multiset(r) == multiset(s)
    ensures Ordered(r, dirs, key)
  {
    if s == [] then []
    else
      var sorted := OrderBy(s[1..], dirs, key);
      InsertOrdered(s[0], sorted, dirs, key);
      assert s == [s[0]] + s[1..];
      Insert(s[0], sorted, dirs, key)
  }
}
