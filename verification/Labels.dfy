/** Label selectors as the API machinery evaluates them. The syntax of keys and values is not
    validated here. */
module Labels {
  import opened Wrappers

  type Labels = map<string, string>

  datatype Operator = In | NotIn | Exists | DoesNotExist | Gt | Lt | Unsupported

  datatype Requirement = Requirement(key: string, op: Operator, values: seq<string>)

  /** A selector ready for matching: `Nothing` matches no labels, `All([])` matches any. */
  datatype Selector = Nothing | All(reqs: seq<Requirement>)

  function Digits(s: string, acc: nat): Option<nat> {
    if s == "" then Some(acc)
    else if '0' <= s[0] <= '9' then Digits(s[1..], 10 * acc + (s[0] as int - '0' as int))
    else None
  }

  /** A decimal 64-bit integer with an optional sign. */
  function ParseInt(s: string): Option<int> {
    var negative := s != "" && s[0] == '-';
    var digits := if s != "" && (s[0] == '-' || s[0] == '+') then s[1..] else s;
    var n := Digits(digits, 0);
    if digits == "" || n.None? then None
    else
      var v: int := if negative then -(n.value as int) else n.value;
      if -0x8000_0000_0000_0000 <= v < 0x8000_0000_0000_0000 then Some(v) else None
  }

  /** labels.NewRequirement accepts it. */
  predicate ValidRequirement(r: Requirement) {
    match r.op
    case In => r.values != []
    case NotIn => r.values != []
    case Exists => r.values == []
    case DoesNotExist => r.values == []
    case Gt => |r.values| == 1 && ParseInt(r.values[0]).Some?
    case Lt => |r.values| == 1 && ParseInt(r.values[0]).Some?
    case Unsupported => false
  }

  predicate Holds(r: Requirement, labels: Labels) {
    match r.op
    case In => r.key in labels && labels[r.key] in r.values
    case NotIn => r.key !in labels || labels[r.key] !in r.values
    case Exists => r.key in labels
    case DoesNotExist => r.key !in labels
    case Gt => Compares(r, labels, (a, b) => a > b)
    case Lt => Compares(r, labels, (a, b) => a < b)
    case Unsupported => false
  }

  predicate Compares(r: Requirement, labels: Labels, holds: (int, int) -> bool) {
    && r.key in labels && ParseInt(labels[r.key]).Some?
    && |r.values| == 1 && ParseInt(r.values[0]).Some?
    && holds(ParseInt(labels[r.key]).value, ParseInt(r.values[0]).value)
  }

  predicate Matches(sel: Selector, labels: Labels) {
    match sel
    case Nothing => false
    case All(reqs) => forall r | r in reqs :: Holds(r, labels)
  }

  /** The selector of the API objects: labels to be equal, and expressions. */
  datatype LabelSelector = LabelSelector(matchLabels: map<string, string>, matchExpressions: seq<Requirement>)

  predicate ValidExpression(r: Requirement) {
    !r.op.Gt? && !r.op.Lt? && ValidRequirement(r)
  }

  /** metav1.LabelSelectorAsSelector succeeds. */
  predicate Parses(ls: Option<LabelSelector>) {
    ls.Some? ==> forall r | r in ls.value.matchExpressions :: ValidExpression(r)
  }

  /** What the parsed selector matches: a missing selector nothing, an empty one everything. */
  predicate SelectorMatches(ls: Option<LabelSelector>, labels: Labels) {
    && ls.Some?
    && (forall k | k in ls.value.matchLabels :: k in labels && labels[k] == ls.value.matchLabels[k])
    && (forall r | r in ls.value.matchExpressions :: Holds(r, labels))
  }

  predicate SelectorIsEmpty(ls: Option<LabelSelector>) {
    ls.Some? && ls.value.matchLabels == map[] && ls.value.matchExpressions == []
  }

  // ---- What the operators mean -----------------------------------------------------------------

  function Decimal(n: nat): string {
    if n < 10 then [('0' as int + n) as char] else Decimal(n / 10) + [('0' as int + n % 10) as char]
  }

  function Printed(n: int): string {
    if n < 0 then "-" + Decimal(-n) else Decimal(n)
  }

  lemma {:induction false} DigitsMore(s: string, c: char, acc: nat)
    requires '0' <= c <= '9'
    ensures Digits(s + [c], acc) ==
              if Digits(s, acc).Some? then Some(10 * Digits(s, acc).value + (c as int - '0' as int)) else None
  {
    if s == "" {
      assert ([c])[1..] == "";
    } else {
      assert (s + [c])[1..] == s[1..] + [c];
      if '0' <= s[0] <= '9' {
        DigitsMore(s[1..], c, 10 * acc + (s[0] as int - '0' as int));
      }
    }
  }

  lemma {:induction false} DigitsOfDecimal(n: nat)
    ensures Digits(Decimal(n), 0) == Some(n) && Decimal(n) != "" && '0' <= Decimal(n)[0] <= '9'
  {
    if n < 10 {
      var s := Decimal(n);
      assert s[1..] == "";
    } else {
      DigitsOfDecimal(n / 10);
      DigitsMore(Decimal(n / 10), ('0' as int + n % 10) as char, 0);
    }
  }

  /** Printed integers of 64 bits are read back; larger ones are refused. */
  lemma ParseUndoesPrint(n: int)
    ensures ParseInt(Printed(n)) == if -0x8000_0000_0000_0000 <= n < 0x8000_0000_0000_0000 then Some(n) else None
  {
    hide Digits, Decimal;
    DigitsOfDecimal(if n < 0 then -n else n);
    if n < 0 {
      assert Printed(n)[1..] == Decimal(-n);
    }
  }

  /** The operators by pairs: being among the values and not, being there and not, and the two
      comparisons, which are those of the integers printed. */
  lemma OperatorsMean(key: string, values: seq<string>, labels: Labels, a: int, b: int)
    ensures Holds(Requirement(key, In, values), labels) <==>
              exists v :: v in values && key in labels && labels[key] == v
    ensures Holds(Requirement(key, NotIn, values), labels) <==> !Holds(Requirement(key, In, values), labels)
    ensures Holds(Requirement(key, Exists, []), labels) <==> key in labels.Keys
    ensures Holds(Requirement(key, DoesNotExist, []), labels) <==> !Holds(Requirement(key, Exists, []), labels)
    ensures key in labels && labels[key] == Printed(a) && values == [Printed(b)]
            && -0x8000_0000_0000_0000 <= a < 0x8000_0000_0000_0000
            && -0x8000_0000_0000_0000 <= b < 0x8000_0000_0000_0000 ==>
              && ValidRequirement(Requirement(key, Gt, values)) && ValidRequirement(Requirement(key, Lt, values))
              && (Holds(Requirement(key, Gt, values), labels) <==> a > b)
              && (Holds(Requirement(key, Lt, values), labels) <==> a < b)
  {
    hide ParseInt, Printed;
    ParseUndoesPrint(a);
    ParseUndoesPrint(b);
  }

  /** A label to be equal is an expression with one value; a selector matches what all its labels and
      expressions match. */
  lemma SelectorMeans(labelsToMatch: map<string, string>, exprs: seq<Requirement>, labels: Labels)
    ensures var sel := Some(LabelSelector(labelsToMatch, exprs));
            && (SelectorMatches(sel, labels) <==>
                && (forall k | k in labelsToMatch :: Holds(Requirement(k, In, [labelsToMatch[k]]), labels))
                && (forall i | 0 <= i < |exprs| :: Holds(exprs[i], labels)))
            && (Parses(sel) <==> forall i | 0 <= i < |exprs| ::
                  match exprs[i].op
                  case In => exprs[i].values != []
                  case NotIn => exprs[i].values != []
                  case Exists => exprs[i].values == []
                  case DoesNotExist => exprs[i].values == []
                  case _ => false)
            && !SelectorMatches(None, labels) && Parses(None)
  {
    assert forall i | 0 <= i < |exprs| :: exprs[i] in exprs;
    forall k | k in labelsToMatch
      ensures Holds(Requirement(k, In, [labelsToMatch[k]]), labels) <==> k in labels && labels[k] == labelsToMatch[k]
    {
    }
  }
}
