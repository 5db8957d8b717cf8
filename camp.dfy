/** The `Camp` record and its comparison operators. The five fields are
    strings; `date` is carried but takes no part in the order or in `==`.
    Record equivalence (`Equal`) is therefore coarser than Dafny's value
    equality: two values that differ only in `date` are `Equal`. */
module Records {
  import Lex

  datatype Camp = Camp(squad: string, year: string, name: string, date: string, shiftNumber: string)

  /** `operator==`: the four ordering fields agree. */
  predicate Equal(a: Camp, b: Camp)
  {
    a.year == b.year && a.squad == b.squad && a.shiftNumber == b.shiftNumber && a.name == b.name
  }

  /** `operator<`: lexicographic over (year, squad, shiftNumber, name). */
  predicate Less(a: Camp, b: Camp)
  {
    if a.year == b.year then
      if a.squad == b.squad then
        if a.shiftNumber == b.shiftNumber then Lex.Less(a.name, b.name)
        else Lex.Less(a.shiftNumber, b.shiftNumber)
      else Lex.Less(a.squad, b.squad)
    else Lex.Less(a.year, b.year)
  }

  /** `operator<=`. */
  predicate LessEq(a: Camp, b: Camp)
  {
    Less(a, b) || Equal(a, b)
  }

  /** `operator>`, defined in the source as the negation of `<=`. */
  predicate Greater(a: Camp, b: Camp)
  {
    !LessEq(a, b)
  }

  /** `operator>=`, defined in the source as the negation of `<`. */
  predicate GreaterEq(a: Camp, b: Camp)
  {
    !Less(a, b)
  }

  lemma LessIrreflexive(a: Camp)
    ensures !Less(a, a)
  {
    Lex.LessIrreflexive(a.name);
  }

  lemma LessAsymmetric(a: Camp, b: Camp)
    ensures !(Less(a, b) && Less(b, a))
  {
    Lex.LessAsymmetric(a.year, b.year);
    Lex.LessAsymmetric(a.squad, b.squad);
    Lex.LessAsymmetric(a.shiftNumber, b.shiftNumber);
    Lex.LessAsymmetric(a.name, b.name);
  }

  lemma LessTransitive(a: Camp, b: Camp, c: Camp)
    requires Less(a, b) && Less(b, c)
    ensures Less(a, c)
  {
    if a.year != b.year || b.year != c.year {
      StringStrictOrder(a.year, b.year, c.year);
    } else if a.squad != b.squad || b.squad != c.squad {
      StringStrictOrder(a.squad, b.squad, c.squad);
    } else if a.shiftNumber != b.shiftNumber || b.shiftNumber != c.shiftNumber {
      StringStrictOrder(a.shiftNumber, b.shiftNumber, c.shiftNumber);
    } else {
      Lex.LessTransitive(a.name, b.name, c.name);
    }
  }

  /** One field of the nested comparison: if `x <= y <= z` with one of the two
      steps strict, then `x < z` and `x != z`. */
  lemma StringStrictOrder(x: string, y: string, z: string)
    requires (Lex.Less(x, y) || x == y) && (Lex.Less(y, z) || y == z)
    requires x != y || y != z
    ensures Lex.Less(x, z) && x != z
  {
    if x == y {
    } else if y == z {
    } else {
      Lex.LessTransitive(x, y, z);
    }
    Lex.LessIrreflexive(x);
  }

  /** Exactly one of `a < b`, `a == b`, `b < a` holds. */
  lemma Trichotomy(a: Camp, b: Camp)
    ensures Less(a, b) || Equal(a, b) || Less(b, a)
    ensures !(Less(a, b) && Equal(a, b))
    ensures !(Less(b, a) && Equal(a, b))
    ensures !(Less(a, b) && Less(b, a))
  {
    Lex.LessTotal(a.year, b.year);
    Lex.LessTotal(a.squad, b.squad);
    Lex.LessTotal(a.shiftNumber, b.shiftNumber);
    Lex.LessTotal(a.name, b.name);
    Lex.LessIrreflexive(a.name);
    LessAsymmetric(a, b);
  }

  /** Records that differ only in `date` are `==`, and neither is `<` the other. */
  lemma DateIgnored(a: Camp, date: string)
    ensures Equal(a, a.(date := date)) && Equal(a.(date := date), a)
    ensures !Less(a, a.(date := date)) && !Less(a.(date := date), a)
  {
    Lex.LessIrreflexive(a.name);
  }

  /** The derived operators agree with the strict order they are built on. */
  lemma DerivedOperators(a: Camp, b: Camp)
    ensures Greater(a, b) <==> Less(b, a)
    ensures GreaterEq(a, b) <==> (Less(b, a) || Equal(a, b))
    ensures LessEq(a, b) <==> !Less(b, a)
  {
    Trichotomy(a, b);
  }

  /** `<=` (written as `!(b < a)`) is transitive. */
  lemma NotLessTransitive(a: Camp, b: Camp, c: Camp)
    requires !Less(b, a) && !Less(c, b)
    ensures !Less(c, a)
  {
    Trichotomy(a, b);
    Trichotomy(b, c);
    if Less(a, b) && Less(b, c) {
      LessTransitive(a, b, c);
      LessAsymmetric(a, c);
    } else if Less(a, b) {
      LessAsymmetric(a, c);
    } else if Less(b, c) {
      LessAsymmetric(b, c);
    } else {
      LessIrreflexive(a);
    }
  }

  /** `a < b <= c` gives `a < c`, with `b <= c` written as `!(c < b)`. */
  lemma LessThenNotLess(a: Camp, b: Camp, c: Camp)
    requires Less(a, b) && !Less(c, b)
    ensures Less(a, c)
  {
    Trichotomy(b, c);
    if Less(b, c) {
      LessTransitive(a, b, c);
    }
  }

  /** `year` is the primary key of the order: a record with a smaller year is
      smaller, and a smaller record never has a larger year. */
  lemma YearPrimary(a: Camp, b: Camp)
    ensures Lex.Less(a.year, b.year) ==> Less(a, b)
    ensures Less(a, b) ==> Lex.Less(a.year, b.year) || a.year == b.year
  {
    Lex.LessIrreflexive(a.year);
  }
}
