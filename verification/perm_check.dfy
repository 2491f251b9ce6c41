/** The permission check of a decoded access token, evaluated over its raw
    permission strings: absent permissions, then the "is:tumex" bypass, then
    the "mailer:baseaccess" baseline, then the route's policy. */
module PermCheck {
  import opened Wrappers

  /** The bypass claim and the minimum-access scope. */
  const IsTumex: string := "is:tumex"
  const MinPerm: string := "mailer:baseaccess"

  /** A route's requirement on a list of permissions. The source calls the
      third policy `None`; it is `NoneOf` here to keep `Option.None` free. */
  datatype PermCheckOpt<T> = All(perms: seq<T>) | Any(perms: seq<T>) | NoneOf(perms: seq<T>)

  /** The policy read as a statement about the user's raw permissions. */
  predicate PolicyHolds<T>(raw: seq<string>, req: Option<PermCheckOpt<T>>, show: T -> string) {
    match req
    case None => true
    case Some(All(ps)) => forall i :: 0 <= i < |ps| ==> show(ps[i]) in raw
    case Some(Any(ps)) => exists i :: 0 <= i < |ps| && show(ps[i]) in raw
    case Some(NoneOf(ps)) => forall i :: 0 <= i < |ps| ==> show(ps[i]) !in raw
  }

  /** The bypass is enabled (by default it is) and the user holds it. */
  predicate Bypassed(raw: seq<string>, checkTumex: Option<bool>) {
    checkTumex.GetOr(true) && IsTumex in raw
  }

  /** The baseline is required (by default it is not) and the user lacks it. */
  predicate LacksBaseline(raw: seq<string>, checkMin: Option<bool>) {
    checkMin.GetOr(false) && MinPerm !in raw
  }

  /** `Auth0TokenFields::check_perm`. `rawPermissions` is the token's
      `raw_permissions` field, `show` the `to_string` of the required
      permission type; `checkMin` defaults to false and `checkTumex` to true. */
  method CheckPerm<T>(rawPermissions: Option<seq<string>>, reqPerm: Option<PermCheckOpt<T>>,
                      checkMin: Option<bool>, checkTumex: Option<bool>, show: T -> string)
    returns (allowed: bool)
    // no permission list at all: refused, even with the bypass enabled
    ensures rawPermissions.None? ==> !allowed
    // the bypass beats the baseline and the policy
    ensures rawPermissions.Some? && Bypassed(rawPermissions.value, checkTumex) ==> allowed
    // the baseline beats the policy
    ensures (rawPermissions.Some? && !Bypassed(rawPermissions.value, checkTumex)
             && LacksBaseline(rawPermissions.value, checkMin))
            ==> !allowed
    // otherwise the policy decides
    ensures (rawPermissions.Some? && !Bypassed(rawPermissions.value, checkTumex)
             && !LacksBaseline(rawPermissions.value, checkMin))
            ==> (allowed <==> PolicyHolds(rawPermissions.value, reqPerm, show))
  {
    var min := checkMin.GetOr(false);
    var tumex := checkTumex.GetOr(true);
    if rawPermissions.None? {
      return false;
    }
    var raw := rawPermissions.value;
    if IsTumex in raw && tumex {
      return true;
    }
    if MinPerm !in raw && min {
      return false;
    }
    match reqPerm {
      case None =>
        return true;
      case Some(All(ps)) =>
        var i := 0;
        while i < |ps|
          invariant 0 <= i <= |ps|
          invariant forall j :: 0 <= j < i ==> show(ps[j]) in raw
        {
          if show(ps[i]) !in raw {
            return false;
          }
          i := i + 1;
        }
        return true;
      case Some(Any(ps)) =>
        var i := 0;
        while i < |ps|
          invariant 0 <= i <= |ps|
          invariant forall j :: 0 <= j < i ==> show(ps[j]) !in raw
        {
          if show(ps[i]) in raw {
            return true;
          }
          i := i + 1;
        }
        return false;
      case Some(NoneOf(ps)) =>
        var i := 0;
        while i < |ps|
          invariant 0 <= i <= |ps|
          invariant forall j :: 0 <= j < i ==> show(ps[j]) !in raw
        {
          if show(ps[i]) in raw {
            return false;
          }
          i := i + 1;
        }
        return true;
    }
  }

  /** An empty `All` list holds, an empty `Any` list fails, an empty `NoneOf` list holds. */
  lemma EmptyPolicies<T>(raw: seq<string>, show: T -> string)
    ensures PolicyHolds(raw, Some(All([])), show)
    ensures !PolicyHolds(raw, Some(Any([])), show)
    ensures PolicyHolds(raw, Some(NoneOf([])), show)
  {
  }

  /** `NoneOf` is the negation of `Any` over the same list. */
  lemma NoneOfIsNotAny<T>(raw: seq<string>, ps: seq<T>, show: T -> string)
    ensures PolicyHolds(raw, Some(NoneOf(ps)), show) <==> !PolicyHolds(raw, Some(Any(ps)), show)
  {
  }
}
