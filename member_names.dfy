/** Extraction of a member name from the body of a selector expression. */
module MemberNames {

  /** The expression shapes that matter here: a member access, a unary node wrapping
      another expression (such as a conversion), and every other kind of expression. */
  datatype Expr = Member(name: string) | Unary(operand: Expr) | Other

  /** True when `e` accesses member `n`, directly or under one unary wrapper. */
  predicate IsAccessOf(e: Expr, n: string)
  {
    e == Member(n) || e == Unary(Member(n))
  }

  /** The member name of a selector body; the empty string for any other shape. Never fails. */
  function GetMemberName(e: Expr): (r: string)
    ensures forall n :: IsAccessOf(e, n) ==> r == n
    ensures r != "" ==> IsAccessOf(e, r)
  {
    match e
    case Member(n) => n
    case Unary(operand) => if operand.Member? then operand.name else ""
    case Other => ""
  }

  /** Unrecognised shapes give the empty string: a bare `Other`, a unary node round
      anything but a member access, and two or more nested unary nodes. */
  lemma GetMemberNameUnrecognised(inner: Expr)
    ensures GetMemberName(Other) == ""
    ensures !inner.Member? ==> GetMemberName(Unary(inner)) == ""
    ensures GetMemberName(Unary(Unary(inner))) == ""
  {
  }
}
