/** The six comparison operators of the source, and the lexicographic order
    std::string uses. */
module Ordering {
  datatype CompareOp = Equal | NotEqual | Less | Greater | LessEqual | GreaterEqual

  /** The built-in comparison of two integers (used for epochs and durations). */
  predicate IntCompare(a: int, b: int, op: CompareOp)
  {
    match op
    case Equal => a == b
    case NotEqual => a != b
    case Less => a < b
    case Greater => a > b
    case LessEqual => a <= b
    case GreaterEqual => a >= b
  }

  /** std::string's operator<: compare character by character, the first
      difference decides, and a proper prefix is smaller. */
  predicate LexLess(a: string, b: string)
    decreases |a|
  {
    if |a| == 0 then |b| > 0
    else if |b| == 0 then false
    else if a[0] != b[0] then a[0] < b[0]
    else LexLess(a[1..], b[1..])
  }

  /** The six std::string operators, each as the library defines it in terms
      of operator== and operator<. */
  predicate StringCompare(a: string, b: string, op: CompareOp)
  {
    match op
    case Equal => a == b
    case NotEqual => a != b
    case Less => LexLess(a, b)
    case Greater => LexLess(b, a)
    case LessEqual => !LexLess(b, a)
    case GreaterEqual => !LexLess(a, b)
  }

  lemma {:induction false} LexIrreflexive(a: string)
    ensures !LexLess(a, a)
    decreases |a|
  {
    if |a| > 0 {
      LexIrreflexive(a[1..]);
    }
  }

  lemma {:induction false} LexTrichotomy(a: string, b: string)
    ensures a == b || LexLess(a, b) || LexLess(b, a)
    decreases |a|
  {
    if |a| > 0 && |b| > 0 && a[0] == b[0] {
      LexTrichotomy(a[1..], b[1..]);
      if a[1..] == b[1..] {
        assert a == [a[0]] + a[1..] && b == [b[0]] + b[1..];
      }
    }
  }

  lemma {:induction false} LexAsymmetric(a: string, b: string)
    requires LexLess(a, b)
    ensures !LexLess(b, a)
    decreases |a|
  {
    if |a| > 0 && a[0] == b[0] {
      LexAsymmetric(a[1..], b[1..]);
    }
  }

  lemma {:induction false} LexTransitive(a: string, b: string, c: string)
    requires LexLess(a, b) && LexLess(b, c)
    ensures LexLess(a, c)
    decreases |a|
  {
    if |a| > 0 && a[0] == b[0] && b[0] == c[0] {
      LexTransitive(a[1..], b[1..], c[1..]);
    }
  }

  /** The string operators agree with each other the way a total order's do:
      exactly one of <, ==, > holds, and <=, >=, != are what their names say. */
  lemma StringCompareIsTotalOrder(a: string, b: string)
    ensures StringCompare(a, b, Less) || StringCompare(a, b, Equal) || StringCompare(a, b, Greater)
    ensures !(StringCompare(a, b, Less) && StringCompare(a, b, Equal))
    ensures !(StringCompare(a, b, Less) && StringCompare(a, b, Greater))
    ensures !(StringCompare(a, b, Equal) && StringCompare(a, b, Greater))
    ensures StringCompare(a, b, LessEqual) <==> StringCompare(a, b, Less) || StringCompare(a, b, Equal)
    ensures StringCompare(a, b, GreaterEqual) <==> StringCompare(a, b, Greater) || StringCompare(a, b, Equal)
    ensures StringCompare(a, b, NotEqual) <==> !StringCompare(a, b, Equal)
  {
    LexTrichotomy(a, b);
    LexIrreflexive(a);
    if LexLess(a, b) {
      LexAsymmetric(a, b);
    }
  }
}
