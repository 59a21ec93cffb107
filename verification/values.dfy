/** Table cells and the order in which pandas sorts them. */
module Values {

  /** One cell of a table: a missing value (NaN or None), an integer or a
      string. */
  datatype Val = Null | Int(i: int) | Str(s: string)

  /** Python's `a <= b` on strings: lexicographic by code point. */
  predicate StrLe(a: string, b: string)
  {
    |a| == 0 || (|b| > 0 && (a[0] < b[0] || (a[0] == b[0] && StrLe(a[1..], b[1..]))))
  }

  /** `sort_values` order on one column: numbers by value, strings by code
      point, missing values last (`na_position='last'`). Pandas refuses to
      compare an integer with a string; the model puts integers first. */
  predicate ValLe(a: Val, b: Val)
  {
    match (a, b)
    case (_, Null) => true
    case (Null, _) => false
    case (Int(x), Int(y)) => x <= y
    case (Int(_), Str(_)) => true
    case (Str(_), Int(_)) => false
    case (Str(x), Str(y)) => StrLe(x, y)
  }

  /** Multi-column `sort_values(by=[...])` order: lexicographic over the
      key columns. */
  predicate KeyLe(a: seq<Val>, b: seq<Val>)
  {
    |a| == 0 || (|b| > 0 && ((ValLe(a[0], b[0]) && a[0] != b[0]) || (a[0] == b[0] && KeyLe(a[1..], b[1..]))))
  }

  lemma StrLeTotal(a: string, b: string)
    ensures StrLe(a, b) || StrLe(b, a)
  {
    if |a| > 0 && |b| > 0 && a[0] == b[0] {
      StrLeTotal(a[1..], b[1..]);
    }
  }

  lemma StrLeAntisymmetric(a: string, b: string)
    requires StrLe(a, b) && StrLe(b, a)
    ensures a == b
  {
    if |a| > 0 && |b| > 0 {
      StrLeAntisymmetric(a[1..], b[1..]);
    }
  }

  lemma StrLeTransitive(a: string, b: string, c: string)
    requires StrLe(a, b) && StrLe(b, c)
    ensures StrLe(a, c)
  {
    if |a| > 0 && |b| > 0 && |c| > 0 && a[0] == b[0] == c[0] {
      StrLeTransitive(a[1..], b[1..], c[1..]);
    }
  }

  lemma StrLeReflexive(a: string)
    ensures StrLe(a, a)
  {
    if |a| > 0 {
      StrLeReflexive(a[1..]);
    }
  }

  lemma ValLeReflexive(a: Val)
    ensures ValLe(a, a)
  {
    if a.Str? {
      StrLeReflexive(a.s);
    }
  }

  lemma ValLeTotal(a: Val, b: Val)
    ensures ValLe(a, b) || ValLe(b, a)
  {
    if a.Str? && b.Str? {
      StrLeTotal(a.s, b.s);
    }
  }

  lemma ValLeAntisymmetric(a: Val, b: Val)
    requires ValLe(a, b) && ValLe(b, a)
    ensures a == b
  {
    if a.Str? && b.Str? {
      StrLeAntisymmetric(a.s, b.s);
    }
  }

  lemma ValLeTransitive(a: Val, b: Val, c: Val)
    requires ValLe(a, b) && ValLe(b, c)
    ensures ValLe(a, c)
  {
    if a.Str? && b.Str? && c.Str? {
      StrLeTransitive(a.s, b.s, c.s);
    }
  }

  /** Every key sorts at or before itself. */
  lemma KeyLeReflexive(a: seq<Val>)
    ensures KeyLe(a, a)
  {
  }

  /** Any two keys are comparable. */
  lemma KeyLeTotal(a: seq<Val>, b: seq<Val>)
    ensures KeyLe(a, b) || KeyLe(b, a)
  {
    if |a| > 0 && |b| > 0 {
      ValLeTotal(a[0], b[0]);
      if a[0] == b[0] {
        KeyLeTotal(a[1..], b[1..]);
      }
    }
  }

  /** The key order is transitive. */
  lemma KeyLeTransitive(a: seq<Val>, b: seq<Val>, c: seq<Val>)
    requires KeyLe(a, b) && KeyLe(b, c)
    ensures KeyLe(a, c)
  {
    if |a| > 0 && |b| > 0 && |c| > 0 {
      if a[0] == b[0] && b[0] == c[0] {
        KeyLeTransitive(a[1..], b[1..], c[1..]);
      } else {
        ValLeReflexive(a[0]);
        ValLeReflexive(b[0]);
        ValLeTransitive(a[0], b[0], c[0]);
        if a[0] == c[0] {
          ValLeAntisymmetric(a[0], b[0]);
        }
      }
    }
  }

  /** The key order is antisymmetric, so keys that are equal in the order are
      equal values. */
  lemma KeyLeAntisymmetric(a: seq<Val>, b: seq<Val>)
    requires KeyLe(a, b) && KeyLe(b, a)
    ensures a == b
  {
    if |a| > 0 && |b| > 0 {
      if a[0] == b[0] {
        KeyLeAntisymmetric(a[1..], b[1..]);
        assert a == [a[0]] + a[1..];
        assert b == [b[0]] + b[1..];
      } else {
        ValLeAntisymmetric(a[0], b[0]);
      }
    }
  }
}
