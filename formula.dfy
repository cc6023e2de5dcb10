/** evaluateFormula of utils/spreadsheet.ts: a formula is text that starts with
    "="; its remainder is upper-cased, scanned for cell references
    (`/[A-Z]+[0-9]+/g`), each reference is replaced in turn by the value the
    resolver gives for it, and the resulting text is run as JavaScript. */
module Formula {
  import opened JsBuiltins

  /** A displayed cell value: text, or a JavaScript number (kept as the text
      that its `toString()` prints). */
  datatype CellValue = Text(text: string) | Number(rendering: string)

  /** `value.toString()` */
  function Show(v: CellValue): string {
    match v
    case Text(s) => s
    case Number(s) => s
  }

  /** How running the substituted expression ended: with a value (already
      passed through the numeric coercion of `isNumeric`/`Number`), or by
      throwing. `new Function(...)()` is this oracle; it is a parameter. */
  datatype Completion = Normal(result: CellValue) | Throws

  /** A cell-value lookup. `None` stands for a lookup that does not return a
      value (the recursion it starts has not finished). */
  type Resolver = string -> Option<CellValue>

  type Oracle = string -> Completion

  // ---------------------------------------------------------------------------
  // Scanning for references: `expression.match(/[A-Z]+[0-9]+/g) || []`

  /** The half-open position range of one match. */
  datatype Span = Span(start: nat, stop: nat)

  /** The global scan from position `i`: at a capital letter, the longest run
      of capitals followed by the longest run of digits is a match, and the scan
      resumes after it; a run of capitals not followed by a digit yields no
      match anywhere inside it, so the scan resumes after the run. */
  function Scan(s: string, i: nat): (spans: seq<Span>)
    requires i <= |s|
    ensures forall n :: 0 <= n < |spans| ==> i <= spans[n].start < spans[n].stop <= |s|
    ensures forall n, m :: 0 <= n < m < |spans| ==> spans[n].stop <= spans[m].start
    decreases |s| - i
  {
    if i == |s| then []
    else if !IsUpper(s[i]) then Scan(s, i + 1)
    else
      var j := RunEnd(s, i, Letters);
      if j < |s| && IsDigit(s[j]) then
        var k := RunEnd(s, j, Digits);
        [Span(i, k)] + Scan(s, k)
      else Scan(s, j)
  }

  /** The matched texts, left to right. */
  function References(s: string): (refs: seq<string>)
    ensures |refs| == |Scan(s, 0)|
    ensures forall n :: 0 <= n < |refs| ==> refs[n] == s[Scan(s, 0)[n].start..Scan(s, 0)[n].stop]
  {
    var spans := Scan(s, 0);
    seq(|spans|, n requires 0 <= n < |spans| => s[spans[n].start..spans[n].stop])
  }

  /** Position `p` begins a match of `[A-Z]+[0-9]+` that the global scan
      reports: it starts a maximal run of capitals, and a digit follows the run. */
  predicate StartsReference(s: string, p: nat) {
    p < |s| && IsUpper(s[p]) && (p == 0 || !IsUpper(s[p - 1])) &&
    var j := RunEnd(s, p, Letters);
    j < |s| && IsDigit(s[j])
  }

  /** Where the greedy match that begins at `p` ends: after the capitals, after the digits. */
  function ReferenceEnd(s: string, p: nat): nat
    requires p <= |s|
  {
    RunEnd(s, RunEnd(s, p, Letters), Digits)
  }

  /** `i` is not strictly inside a run of capitals. */
  predicate NotInsideRun(s: string, i: nat) {
    !(0 < i < |s| && IsUpper(s[i - 1]) && IsUpper(s[i]))
  }

  /** No match begins strictly inside, or right after, a run of capitals that starts at `i`. */
  lemma NoStartInRun(s: string, i: nat, p: nat)
    requires i < |s| && i < p <= RunEnd(s, i, Letters) && p < |s|
    ensures !StartsReference(s, p)
  {
    if p < RunEnd(s, i, Letters) {
      assert IsUpper(s[p - 1]);
    }
  }

  /** No match begins inside a run of digits. */
  lemma NoStartInDigits(s: string, j: nat, p: nat)
    requires j <= |s| && j <= p < RunEnd(s, j, Digits)
    ensures !StartsReference(s, p)
  {
    assert IsDigit(s[p]);
  }

  lemma {:induction false} ScanSound(s: string, i: nat)
    requires i <= |s| && NotInsideRun(s, i)
    ensures forall n :: 0 <= n < |Scan(s, i)| ==>
              StartsReference(s, Scan(s, i)[n].start) && Scan(s, i)[n].stop == ReferenceEnd(s, Scan(s, i)[n].start)
    decreases |s| - i
  {
    if i == |s| {
    } else if !IsUpper(s[i]) {
      ScanSound(s, i + 1);
    } else {
      var j := RunEnd(s, i, Letters);
      if j < |s| && IsDigit(s[j]) {
        var k := RunEnd(s, j, Digits);
        ScanSound(s, k);
        assert StartsReference(s, i);
      } else {
        ScanSound(s, j);
      }
    }
  }

  lemma {:induction false} ScanComplete(s: string, i: nat, p: nat)
    requires i <= p && i <= |s| && NotInsideRun(s, i) && StartsReference(s, p)
    ensures exists n :: 0 <= n < |Scan(s, i)| && Scan(s, i)[n].start == p
    decreases |s| - i, 1
  {
    if !IsUpper(s[i]) {
      assert p != i;
      ScanComplete(s, i + 1, p);
      assert Scan(s, i) == Scan(s, i + 1);
    } else {
      var j := RunEnd(s, i, Letters);
      if p == i {
        assert Scan(s, i)[0].start == p;
      } else {
        if p <= j {
          NoStartInRun(s, i, p);
        }
        if j < |s| && IsDigit(s[j]) {
          ScanCompleteAfterMatch(s, i, p);
        } else {
          ScanComplete(s, j, p);
          assert Scan(s, i) == Scan(s, j);
        }
      }
    }
  }

  /** The case of `ScanComplete` where a match starts at `i` and `p` lies after its letters. */
  lemma {:induction false} ScanCompleteAfterMatch(s: string, i: nat, p: nat)
    requires i < |s| && IsUpper(s[i]) && RunEnd(s, i, Letters) < p && StartsReference(s, p)
    requires RunEnd(s, i, Letters) < |s| && IsDigit(s[RunEnd(s, i, Letters)])
    ensures exists n :: 0 <= n < |Scan(s, i)| && Scan(s, i)[n].start == p
    decreases |s| - i, 0
  {
    var j := RunEnd(s, i, Letters);
    var k := RunEnd(s, j, Digits);
    if p < k {
      NoStartInDigits(s, j, p);
    }
    ScanComplete(s, k, p);
    var rest := Scan(s, k);
    assert Scan(s, i) == [Span(i, k)] + rest;
    var n :| 0 <= n < |rest| && rest[n].start == p;
    assert Scan(s, i)[n + 1].start == p;
  }

  /** The references are exactly the non-overlapping, left-to-right, greedy
      matches of capitals followed by digits. */
  lemma ReferencesAreMatches(s: string)
    ensures forall n :: 0 <= n < |Scan(s, 0)| ==>
              StartsReference(s, Scan(s, 0)[n].start) && Scan(s, 0)[n].stop == ReferenceEnd(s, Scan(s, 0)[n].start)
    ensures forall p :: StartsReference(s, p) ==>
              exists n :: 0 <= n < |Scan(s, 0)| && Scan(s, 0)[n].start == p
    ensures forall n, m :: 0 <= n < m < |Scan(s, 0)| ==> Scan(s, 0)[n].stop <= Scan(s, 0)[m].start
  {
    ScanSound(s, 0);
    forall p | StartsReference(s, p) ensures exists n :: 0 <= n < |Scan(s, 0)| && Scan(s, 0)[n].start == p {
      ScanComplete(s, 0, p);
    }
  }

  /** Text of the form `[A-Z]+[0-9]+`. */
  predicate IsReferenceText(t: string) {
    var j := RunEnd(t, 0, Letters);
    0 < j < |t| && RunEnd(t, j, Digits) == |t|
  }

  lemma EveryReferenceHasTheShape(s: string)
    ensures forall n :: 0 <= n < |References(s)| ==> IsReferenceText(References(s)[n])
  {
    ReferencesAreMatches(s);
    forall n | 0 <= n < |References(s)| ensures IsReferenceText(References(s)[n]) {
      var sp := Scan(s, 0)[n];
      var t := s[sp.start..sp.stop];
      var j := RunEnd(s, sp.start, Letters);
      assert RunEnd(t, 0, Letters) == j - sp.start by {
        assert forall m :: 0 <= m < j - sp.start ==> t[m] == s[sp.start + m];
        assert t[j - sp.start] == s[j];
      }
      assert RunEnd(t, j - sp.start, Digits) == |t| by {
        assert forall m :: j - sp.start <= m < |t| ==> t[m] == s[sp.start + m];
      }
    }
  }

  // ---------------------------------------------------------------------------
  // Substitution and evaluation

  /** The loop of evaluateFormula as a value: each reference in turn is looked
      up and its first remaining occurrence in the working text replaced by the
      value's text. A lookup that does not return stops everything. */
  function Substitute(w: string, refs: seq<string>, resolve: Resolver): Option<string>
    decreases |refs|
  {
    if refs == [] then Some(w)
    else match resolve(refs[0])
      case None => None
      case Some(v) => Substitute(Replace(w, refs[0], Show(v)), refs[1..], resolve)
  }

  /** evaluateFormula as a value. */
  function Evaluate(formula: string, resolve: Resolver, exec: Oracle): (r: Option<CellValue>)
    ensures (formula == [] || formula[0] != '=') ==> r == Some(Text(formula))
  {
    if formula == [] || formula[0] != '=' then Some(Text(formula))
    else
      var expression := UpperCase(formula[1..]);
      match Substitute(expression, References(expression), resolve)
      case None => None
      case Some(w) =>
        match exec(w)
        case Normal(v) => Some(v)
        case Throws => Some(Text("#ERROR!"))
  }

  /** evaluateFormula: the `for` loop over the references, reassigning the
      working expression. */
  method EvaluateFormula(formula: string, resolve: Resolver, exec: Oracle) returns (r: Option<CellValue>)
    ensures r == Evaluate(formula, resolve, exec)
  {
    if formula == [] || formula[0] != '=' {
      return Some(Text(formula));
    }
    var expression := UpperCase(formula[1..]);
    var cellReferences := References(expression);
    var evaluatedExpression := expression;
    for n := 0 to |cellReferences|
      invariant Substitute(expression, cellReferences, resolve)
                == Substitute(evaluatedExpression, cellReferences[n..], resolve)
    {
      var cellValue := resolve(cellReferences[n]);
      if cellValue.None? {
        return None;
      }
      assert cellReferences[n..][1..] == cellReferences[n + 1..];
      evaluatedExpression := Replace(evaluatedExpression, cellReferences[n], Show(cellValue.value));
    }
    match exec(evaluatedExpression)
    case Normal(v) => r := Some(v);
    case Throws => r := Some(Text("#ERROR!"));
  }

  // ---------------------------------------------------------------------------
  // Properties

  /** Text that is not a formula is returned as it is, whatever the resolver. */
  lemma LiteralIgnoresResolver(formula: string, res1: Resolver, res2: Resolver, exec: Oracle)
    requires formula == [] || formula[0] != '='
    ensures Evaluate(formula, res1, exec) == Evaluate(formula, res2, exec) == Some(Text(formula))
  {
  }

  /** The substitution consults the resolver only on the references listed. */
  lemma {:induction false} SubstituteUsesOnlyRefs(w: string, refs: seq<string>, res1: Resolver, res2: Resolver)
    requires forall n :: 0 <= n < |refs| ==> res1(refs[n]) == res2(refs[n])
    ensures Substitute(w, refs, res1) == Substitute(w, refs, res2)
    decreases |refs|
  {
    if refs != [] && res1(refs[0]).Some? {
      SubstituteUsesOnlyRefs(Replace(w, refs[0], Show(res1(refs[0]).value)), refs[1..], res1, res2);
    }
  }

  /** The result of a formula depends on the resolver only through the
      references found in its upper-cased text. */
  lemma EvaluateUsesOnlyReferences(formula: string, res1: Resolver, res2: Resolver, exec: Oracle)
    requires formula != [] && formula[0] == '='
    requires forall n :: 0 <= n < |References(UpperCase(formula[1..]))| ==>
               res1(References(UpperCase(formula[1..]))[n]) == res2(References(UpperCase(formula[1..]))[n])
    ensures Evaluate(formula, res1, exec) == Evaluate(formula, res2, exec)
  {
    var e := UpperCase(formula[1..]);
    SubstituteUsesOnlyRefs(e, References(e), res1, res2);
  }

  /** The substitution does not finish exactly when one of the lookups does not return. */
  lemma {:induction false} SubstituteFails(w: string, refs: seq<string>, resolve: Resolver)
    ensures Substitute(w, refs, resolve).None? <==> exists n :: 0 <= n < |refs| && resolve(refs[n]).None?
    decreases |refs|
  {
    if refs != [] && resolve(refs[0]).Some? {
      var next := Replace(w, refs[0], Show(resolve(refs[0]).value));
      assert Substitute(w, refs, resolve) == Substitute(next, refs[1..], resolve);
      SubstituteFails(next, refs[1..], resolve);
      if exists n :: 0 <= n < |refs| && resolve(refs[n]).None? {
        var n :| 0 <= n < |refs| && resolve(refs[n]).None?;
        assert refs[1..][n - 1] == refs[n];
      }
      if exists n :: 0 <= n < |refs[1..]| && resolve(refs[1..][n]).None? {
        var n :| 0 <= n < |refs[1..]| && resolve(refs[1..][n]).None?;
        assert refs[n + 1] == refs[1..][n];
      }
    }
  }

  /** A resolver that answers every listed reference makes the substitution finish. */
  lemma {:induction false} SubstituteTotal(w: string, refs: seq<string>, resolve: Resolver)
    requires forall n :: 0 <= n < |refs| ==> resolve(refs[n]).Some?
    ensures Substitute(w, refs, resolve).Some?
    decreases |refs|
  {
    if refs != [] {
      assert resolve(refs[0]).Some?;
      assert forall n :: 0 <= n < |refs[1..]| ==> refs[1..][n] == refs[n + 1];
      SubstituteTotal(Replace(w, refs[0], Show(resolve(refs[0]).value)), refs[1..], resolve);
    }
  }

  /** When the lookup of every reference of a formula returns, the formula has
      a value: a failure of the expression becomes exactly "#ERROR!", and a
      normal completion is passed on. */
  lemma EvaluateOutcome(formula: string, resolve: Resolver, exec: Oracle)
    requires formula != [] && formula[0] == '='
    requires forall n :: 0 <= n < |References(UpperCase(formula[1..]))| ==>
               resolve(References(UpperCase(formula[1..]))[n]).Some?
    ensures var e := UpperCase(formula[1..]);
            var w := Substitute(e, References(e), resolve);
            w.Some? &&
            (exec(w.value).Throws? ==> Evaluate(formula, resolve, exec) == Some(Text("#ERROR!"))) &&
            (exec(w.value).Normal? ==> Evaluate(formula, resolve, exec) == Some(exec(w.value).result))
  {
    var e := UpperCase(formula[1..]);
    SubstituteTotal(e, References(e), resolve);
  }

  /** A resolver that answers at least as often as another, with the same
      values, gives a formula the same value whenever the other one does. */
  lemma {:induction false} SubstituteMonotone(w: string, refs: seq<string>, res1: Resolver, res2: Resolver)
    requires forall t :: res1(t).Some? ==> res2(t) == res1(t)
    ensures Substitute(w, refs, res1).Some? ==> Substitute(w, refs, res2) == Substitute(w, refs, res1)
    decreases |refs|
  {
    if refs != [] && res1(refs[0]).Some? {
      SubstituteMonotone(Replace(w, refs[0], Show(res1(refs[0]).value)), refs[1..], res1, res2);
    }
  }

  lemma EvaluateMonotone(formula: string, res1: Resolver, res2: Resolver, exec: Oracle)
    requires forall t :: res1(t).Some? ==> res2(t) == res1(t)
    ensures Evaluate(formula, res1, exec).Some? ==> Evaluate(formula, res2, exec) == Evaluate(formula, res1, exec)
  {
    if formula != [] && formula[0] == '=' {
      var e := UpperCase(formula[1..]);
      SubstituteMonotone(e, References(e), res1, res2);
    }
  }
}
