/** `ExpressionExtensions` and `ParameterNamingExtensions`: unwrapping quoted
    lambdas, substituting an expression for a parameter with projection
    beta-reduction (`CombineAndRemap` and its `ExpressionCombiningVisitor`),
    and naming generated parameters after their type. */
module ExpressionExtensions {
  import opened Outcomes
  import opened Clr
  import opened Expressions
  import opened VisitorBase

  /** `UnwrapQuote`: the lambda inside one `Quote`, or the expression itself
      when it is a lambda; anything else fails the `(LambdaExpression)` cast. */
  function UnwrapQuote(e: Expr): (r: Result<Expr>)
    ensures r.Ok? ==> r.value.Lambda?
    ensures e.Lambda? ==> r == Ok(e)
    ensures e.Quote? ==> r == (if e.quoted.Lambda? then Ok(e.quoted) else r) && (r.Ok? <==> e.quoted.Lambda?)
    ensures !e.Quote? && !e.Lambda? ==> r.Err? && r.failure.InvalidCast?
  {
    if e.Quote? then
      (if e.quoted.Lambda? then Ok(e.quoted) else Err(InvalidCast(CastToLambda)))
    else if e.Lambda? then Ok(e)
    else Err(InvalidCast(CastToLambda))
  }

  /** Exactly one quote is stripped: a twice-quoted lambda is rejected. */
  lemma UnwrapQuoteStripsOne(l: Expr)
    requires l.Lambda?
    ensures UnwrapQuote(Quote(l)) == UnwrapQuote(l) == Ok(l)
    ensures UnwrapQuote(Quote(Quote(l))).Err?
  {
  }

  // ------------------------------------------------ member lookup on a `new`

  /** The positions of `m` among the members of a `new`. */
  function MemberPositions(members: seq<string>, m: string): (r: seq<nat>)
    ensures forall k :: 0 <= k < |r| ==> r[k] < |members| && members[r[k]] == m
    ensures forall i :: 0 <= i < |members| && members[i] == m ==> i in r
    decreases |members|
  {
    if members == [] then []
    else
      var rest := MemberPositions(members[..|members| - 1], m);
      if members[|members| - 1] == m then rest + [|members| - 1] else rest
  }

  /** The lookup as written: `Members.Select(...).Where(match).SingleOrDefault()`.
      `Select` on the null member list of a `new` built without members throws. */
  function MatchingMemberIndexAsWritten(members: Option<seq<string>>, m: string): (r: Result<Option<nat>>)
    ensures members.None? ==> r.Err? && r.failure.ArgumentNull?
    ensures members.Some? ==> r == MatchingMemberIndex(members, m)
  {
    match members
    case None => Err(ArgumentNull("source"))
    case Some(ms) =>
      var positions := MemberPositions(ms, m);
      if |positions| == 0 then Ok(None)
      else if |positions| == 1 then Ok(Some(positions[0]))
      else Err(InvalidOperation(MoreThanOneElement))
  }

  /** The lookup as intended: a `new` without a member list has no member to match. */
  function MatchingMemberIndex(members: Option<seq<string>>, m: string): (r: Result<Option<nat>>)
    ensures members.None? ==> r == Ok(None)
    ensures r.Ok? && r.value.Some? ==> members.Some? && r.value.value < |members.value| && members.value[r.value.value] == m
    ensures r.Ok? && r.value.None? && members.Some? ==> m !in members.value
    ensures r.Err? ==> members.Some? && exists i, j :: 0 <= i < j < |members.value| && members.value[i] == m && members.value[j] == m
  {
    match members
    case None => Ok(None)
    case Some(ms) =>
      var positions := MemberPositions(ms, m);
      if |positions| == 0 then Ok(None)
      else if |positions| == 1 then Ok(Some(positions[0]))
      else
        assert positions[0] != positions[1] by { DistinctPositions(ms, m); }
        if positions[0] < positions[1] then
          assert ms[positions[0]] == m && ms[positions[1]] == m;
          Err(InvalidOperation(MoreThanOneElement))
        else
          assert ms[positions[1]] == m && ms[positions[0]] == m;
          Err(InvalidOperation(MoreThanOneElement))
  }

  lemma {:induction false} DistinctPositions(members: seq<string>, m: string)
    ensures forall j, k :: 0 <= j < k < |MemberPositions(members, m)| ==>
              MemberPositions(members, m)[j] < MemberPositions(members, m)[k]
    decreases |members|
  {
    if members != [] {
      DistinctPositions(members[..|members| - 1], m);
    }
  }

  /** Accessing a member of `new Foo(x)` (a `new` without a member list) makes
      the lookup as written throw, so a pending selector such as
      `c => new Foo(c.Id)` followed by a member access cannot be combined. */
  lemma MemberOfPlainNewFailsAsWritten(x: Expr, t: ClrType)
    ensures MatchingMemberIndexAsWritten(New([x], None, t).members, "Bar").Err?
    ensures MatchingMemberIndex(New([x], None, t).members, "Bar") == Ok(None)
  {
  }

  // ------------------------------------------------ ExpressionCombiningVisitor

  /** `VisitParameter`: the source parameter becomes the replacement. */
  function CombineParameter(sourceParameter: Param, replaceWith: Expr, p: Param): (r: Result<Expr>)
    ensures r.Ok?
    ensures p == sourceParameter ==> r.value == replaceWith
    ensures p != sourceParameter ==> r.value == Parameter(p)
  {
    if p == sourceParameter then Ok(replaceWith) else Ok(Parameter(p))
  }

  /** `ExpressionCombiningVisitor.Visit`: every occurrence of the source
      parameter is replaced; a member read from a `new` listing that member
      becomes the matching constructor argument; everything else is the
      traversal of `NavigationExpansionVisitorBase`. */
  function Combine(sourceParameter: Param, replaceWith: Expr, e: Expr): (r: Result<Expr>)
    ensures e.Parameter? ==> r == Ok(if e.param == sourceParameter then replaceWith else e)
    ensures e.Member? && Combine(sourceParameter, replaceWith, e.source).Err? ==> r.Err?
    ensures e.Member? && Combine(sourceParameter, replaceWith, e.source).Ok? ==>
              r == ReadMember(e, Combine(sourceParameter, replaceWith, e.source).value)
    ensures r.Ok? && !Mentions(replaceWith, sourceParameter) ==> !Mentions(r.value, sourceParameter)
    ensures Untouched(sourceParameter, e) ==> r == Ok(e)
    decreases e, 1
  {
    if e.Member? then
      var newSource := Combine(sourceParameter, replaceWith, e.source);
      if newSource.Ok? then
        ReadMemberAvoids(e, newSource.value, sourceParameter);
        CombineMember(sourceParameter, replaceWith, e)
      else CombineMember(sourceParameter, replaceWith, e)
    else CombineOther(sourceParameter, replaceWith, e)
  }

  /** `VisitMember`: the source is visited first, then read as `ReadMember` says. */
  function CombineMember(sourceParameter: Param, replaceWith: Expr, e: Expr): (r: Result<Expr>)
    requires e.Member?
    ensures Combine(sourceParameter, replaceWith, e.source).Err? ==> r.Err?
    ensures Combine(sourceParameter, replaceWith, e.source).Ok? ==>
              r == ReadMember(e, Combine(sourceParameter, replaceWith, e.source).value)
    ensures Untouched(sourceParameter, e) ==> r == Ok(e)
    decreases e, 0
  {
    var newSource :- Combine(sourceParameter, replaceWith, e.source);
    UntouchedMember(sourceParameter, e);
    ReadMember(e, newSource)
  }

  lemma ReadMemberAvoids(e: Expr, newSource: Expr, p: Param)
    requires e.Member?
    ensures !Mentions(newSource, p) && ReadMember(e, newSource).Ok?
            ==> !Mentions(ReadMember(e, newSource).value, p)
  {
    var r := ReadMember(e, newSource);
    if !Mentions(newSource, p) && r.Ok? {
      if r.value == e {
        if newSource == e.source {
          assert Children(e) == [e.source];
        } else {
          assert e in Children(newSource);
        }
      } else if r.value == Member(newSource, e.member, e.memberType) {
        assert Children(r.value) == [newSource];
      } else {
        assert r.value in Children(newSource);
      }
    }
  }

  lemma UntouchedMember(sourceParameter: Param, e: Expr)
    requires e.Member?
    ensures Untouched(sourceParameter, e) ==>
              Untouched(sourceParameter, e.source) && !e.source.New? && !Mentions(e, sourceParameter)
  {
  }

  /** The rest of `VisitMember` once the source is visited: a member the
      visited `new` lists is its matching argument; any other access is
      rebuilt only when the source changed. */
  function ReadMember(e: Expr, newSource: Expr): (r: Result<Expr>)
    requires e.Member?
    ensures var index := if newSource.New? then MatchingMemberIndex(newSource.members, e.member) else Ok(None);
            (index.Ok? && index.value.Some? && index.value.value < |newSource.arguments| ==>
               r == Ok(newSource.arguments[index.value.value]))
            && (index == Ok(None) ==>
                  r == Ok(if newSource != e.source then Member(newSource, e.member, e.memberType) else e))
            && (index.Err? ==> r.Err?)
    ensures r.Ok? ==> r.value == e || r.value == Member(newSource, e.member, e.memberType) || r.value in Children(newSource)
    ensures r == Ok(e) ==> newSource == e.source || (newSource.New? && e in Children(newSource))
  {
    if newSource.New? then
      var index :- MatchingMemberIndex(newSource.members, e.member);
      if index.Some? then
        if index.value < |newSource.arguments| then Ok(newSource.arguments[index.value])
        else Err(Argument(IndexOutOfRange))
      else if newSource != e.source then Ok(Member(newSource, e.member, e.memberType))
      else Ok(e)
    else if newSource != e.source then Ok(Member(newSource, e.member, e.memberType))
    else Ok(e)
  }

  /** Every node other than a member access: parameters go to
      `VisitParameter`, everything else is the base traversal. */
  function CombineOther(sourceParameter: Param, replaceWith: Expr, e: Expr): (r: Result<Expr>)
    requires !e.Member?
    ensures e.Parameter? ==> r == Ok(if e.param == sourceParameter then replaceWith else e)
    ensures r.Ok? && !Mentions(replaceWith, sourceParameter) ==> !Mentions(r.value, sourceParameter)
    ensures Untouched(sourceParameter, e) ==> r == Ok(e)
    decreases e, 0
  {
    var visit := (x: Expr) requires x < e => Combine(sourceParameter, replaceWith, x);
    var visitParameter := (q: Param) => CombineParameter(sourceParameter, replaceWith, q);
    assert !Mentions(replaceWith, sourceParameter) ==> ResultsAvoid(e, visit, visitParameter, sourceParameter);
    UntouchedParts(sourceParameter, e);
    assert Untouched(sourceParameter, e) ==> LeavesAlone(e, visit, visitParameter);
    if IsExtension(e) then
      VisitExtensionAvoids(e, visit, visitParameter, sourceParameter);
      VisitExtension(e, visit, visitParameter)
    else
      DefaultVisitAvoids(e, visit, visitParameter, sourceParameter);
      DefaultVisit(e, visit, visitParameter)
  }

  /** Substitution finds nothing to do in `e`: no part of it mentions the
      source parameter or reads a member straight out of a `new`, and every
      part holds the node kinds its declaration names. */
  ghost predicate Untouched(sourceParameter: Param, e: Expr) {
    forall x :: x == e || x < e ==>
      !Mentions(x, sourceParameter) && TypedParts(x) && !x.UnknownExtension?
      && !(x.Member? && x.source.New?)
  }

  lemma UntouchedParts(sourceParameter: Param, e: Expr)
    ensures Untouched(sourceParameter, e) ==> forall x :: x < e ==> Untouched(sourceParameter, x)
  {
  }

  /** `CombineAndRemap`: neither the source nor the replacement may be a lambda. */
  function CombineAndRemap(source: Expr, sourceParameter: Param, replaceWith: Expr): (r: Result<Expr>)
    ensures source.Lambda? || replaceWith.Lambda? ==> r.Err? && r.failure.InvalidOperation?
    ensures r.Ok? && !Mentions(replaceWith, sourceParameter) ==> !Mentions(r.value, sourceParameter)
    ensures !source.Lambda? && !replaceWith.Lambda? ==> r == Combine(sourceParameter, replaceWith, source)
  {
    if source.Lambda? then Err(InvalidOperation(LambdaSourceMessage))
    else if replaceWith.Lambda? then Err(InvalidOperation("gf"))
    else Combine(sourceParameter, replaceWith, source)
  }

  /** Projection beta-reduction: substituting a `new { ..., m = a, ... }` for
      the parameter of `p.m` yields `a` itself. */
  lemma CombineReadsProjectedMember(sourceParameter: Param, args: seq<Expr>, ms: seq<string>, t: ClrType, i: nat, memberType: ClrType)
    requires i < |args| && i < |ms|
    requires forall j :: 0 <= j < |ms| && j != i ==> ms[j] != ms[i]
    ensures CombineAndRemap(Member(Parameter(sourceParameter), ms[i], memberType), sourceParameter, New(args, Some(ms), t))
            == Ok(args[i])
  {
    UniquePosition(ms, ms[i], i);
  }

  /** A member not listed has no position. */
  lemma {:induction false} NoPosition(ms: seq<string>, m: string)
    requires forall j :: 0 <= j < |ms| ==> ms[j] != m
    ensures MemberPositions(ms, m) == []
    decreases |ms|
  {
    if ms != [] {
      NoPosition(ms[..|ms| - 1], m);
    }
  }

  /** A member listed once has exactly one position. */
  lemma {:induction false} UniquePosition(ms: seq<string>, m: string, i: nat)
    requires i < |ms| && ms[i] == m
    requires forall j :: 0 <= j < |ms| && j != i ==> ms[j] != m
    ensures MemberPositions(ms, m) == [i]
    decreases |ms|
  {
    var prefix := ms[..|ms| - 1];
    if i == |ms| - 1 {
      NoPosition(prefix, m);
    } else {
      UniquePosition(prefix, m, i);
    }
  }

  // ------------------------------------------------ GenerateParameterName

  /** `char.IsUpper`, over ASCII letters. */
  predicate IsUpper(c: char) {
    'A' <= c <= 'Z'
  }

  /** `char.ToLower`, over ASCII letters. */
  function Lower(c: char): (r: char)
    ensures !IsUpper(r)
    ensures IsUpper(c) ==> r != c
    ensures !IsUpper(c) ==> r == c
  {
    if IsUpper(c) then (c as int + 32) as char else c
  }

  /** `name.Where(char.IsUpper)`: the capitals of the name, in order. */
  function UpperLetters(s: string): (r: string)
    ensures |r| <= |s|
    ensures forall c :: c in r ==> IsUpper(c) && c in s
    ensures forall c :: c in s && IsUpper(c) ==> c in r
    ensures |s| > 0 && IsUpper(s[0]) ==> |r| > 0 && r[0] == s[0]
    ensures forall c :: multiset(r)[c] == (if IsUpper(c) then multiset(s)[c] else 0)
    decreases |s|
  {
    if s == [] then []
    else
      assert s == [s[0]] + s[1..];
      if IsUpper(s[0]) then [s[0]] + UpperLetters(s[1..])
      else UpperLetters(s[1..])
  }

  /** The capitals of a concatenation are the capitals of each part, in
      order: together with the one-character case this fixes the order of
      the capitals, not only which and how many. */
  lemma {:induction false} UpperLettersAppend(a: string, b: string)
    ensures UpperLetters(a + b) == UpperLetters(a) + UpperLetters(b)
    decreases |a|
  {
    if a == [] {
      assert a + b == b;
    } else {
      var ab := a + b;
      assert ab[0] == a[0] && ab[1..] == a[1..] + b;
      UpperLettersAppend(a[1..], b);
      if IsUpper(a[0]) {
        calc {
          UpperLetters(ab);
          [a[0]] + UpperLetters(a[1..] + b);
          [a[0]] + (UpperLetters(a[1..]) + UpperLetters(b));
          ([a[0]] + UpperLetters(a[1..])) + UpperLetters(b);
        }
      } else {
        assert UpperLetters(ab) == UpperLetters(a[1..] + b);
      }
    }
  }

  /** `string.ToLower`, over ASCII letters. */
  function ToLower(s: string): (r: string)
    ensures |r| == |s|
    ensures forall i :: 0 <= i < |s| ==> r[i] == Lower(s[i])
    decreases |s|
  {
    if s == [] then [] else [Lower(s[0])] + ToLower(s[1..])
  }

  /** `GenerateParameterName`: the capitals of the type name, lowercased, or
      else the lowercased first character of the name. */
  function GenerateParameterName(t: ClrType): (r: string)
    ensures |r| > 0
    ensures forall c :: c in r ==> !IsUpper(c)
    ensures |r| == (if UpperLetters(NameOf(t)) == [] then 1 else |UpperLetters(NameOf(t))|)
    ensures IsUpper(NameOf(t)[0]) || UpperLetters(NameOf(t)) == [] ==> r[0] == Lower(NameOf(t)[0])
    ensures forall i :: 0 <= i < |UpperLetters(NameOf(t))| ==> r[i] == Lower(UpperLetters(NameOf(t))[i])
  {
    var name := NameOf(t);
    var removeLowerCase := UpperLetters(name);
    if |removeLowerCase| > 0 then ToLower(removeLowerCase)
    else ToLower(name)[0..1]
  }
}
