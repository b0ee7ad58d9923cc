/** Syntax trees of XPath expressions, before and after optimisation. */
module XPathSyntax {
  import opened Axes
  import opened Steps

  /** Numbers: reals with the infinities and NaN; the sign of zero is not represented. */
  datatype Num = NaN | NegInf | PosInf | Fin(r: real)

  datatype ScalarType = TBool | TNum | TStr

  datatype ZeroFun = Last | Position | True | False | LocalName0 | Name0 | String0 | StringLength0 | Number0
    | NamespaceUri0 | NormalizeSpace0

  datatype OneFun = Negate | Boolean | Not | String1 | StringLength1 | Number1 | Floor | Ceiling | Round
    | NormalizeSpace1 | Lang

  datatype SetFun = Count | Sum | LocalName1 | Name1 | NamespaceUri1

  datatype TwoFun =
    | Or | And | Equal | NotEqual | Less | Greater | LessOrEqual | GreaterOrEqual
    | Add | Subtract | Multiply | Divide | Mod | StartsWithFun | Contains | SubstringBefore | SubstringAfter | Substring2

  /** What the optimiser found out about a predicate. */
  datatype PredClass = DefaultClass | Posinv | ConstantClass | ConstantOne

  datatype Expr =
    | OfNodes(s: SetExpr)
    | StrConst(str: string)
    | NumConst(num: Num)
    | Var(v: string, ty: ScalarType)
    | Zero(f0: ZeroFun)
    | One(f1: OneFun, arg: Expr)
    | OfSet(fs: SetFun, set_: SetExpr)
    | Two(f2: TwoFun, left: Expr, right: Expr)
    | Concat(first: Expr, rest: Exprs)
    | Translate(text: Expr, from: Expr, to: Expr)
    | Substring3(text: Expr, start: Expr, length: Expr)
    | OptTranslateTable(text: Expr, table: seq<nat>)
    | OptCompareAttribute(name: string, value: Expr)

  datatype Exprs = ENil | ECons(e: Expr, es: Exprs)

  datatype SetExpr =
    | Union(l: SetExpr, r: SetExpr)
    | Filter(inner: SetExpr, pred: Expr, cls: PredClass)
    | IdOf(arg: Expr)
    | Step(base: Base, axis: Axis, test: NodeTest, preds: Preds)
    | Root
    | SetVar(v: string)

  /** Where a step starts: at the context node, or at every node of a set. */
  datatype Base = FromContext | From(s: SetExpr)

  datatype Preds = PNil | PCons(pred: Expr, cls: PredClass, rest: Preds)

  datatype ValueType = TScalar(ty: ScalarType) | TSet

  function TypeOf(e: Expr): ValueType {
    match e
    case OfNodes(_) => TSet
    case StrConst(_) => TScalar(TStr)
    case NumConst(_) => TScalar(TNum)
    case Var(_, ty) => TScalar(ty)
    case Zero(f) =>
      if f in {Last, Position, StringLength0, Number0} then TScalar(TNum)
      else if f in {True, False} then TScalar(TBool) else TScalar(TStr)
    case One(f, _) =>
      if f in {Boolean, Not, Lang} then TScalar(TBool) else if f in {String1, NormalizeSpace1} then TScalar(TStr) else TScalar(TNum)
    case OfSet(f, _) => if f in {Count, Sum} then TScalar(TNum) else TScalar(TStr)
    case Two(f, _, _) =>
      if f in {Add, Subtract, Multiply, Divide, Mod} then TScalar(TNum)
      else if f in {SubstringBefore, SubstringAfter, Substring2} then TScalar(TStr) else TScalar(TBool)
    case Concat(_, _) => TScalar(TStr)
    case Translate(_, _, _) => TScalar(TStr)
    case Substring3(_, _, _) => TScalar(TStr)
    case OptTranslateTable(_, _) => TScalar(TStr)
    case OptCompareAttribute(_, _) => TScalar(TBool)
  }

  predicate IsNumber(e: Expr) {
    TypeOf(e) == TScalar(TNum)
  }
}
