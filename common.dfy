/** Values shared by every handler: optional values, handler results, HTTP
    responses, and Python's `str.strip()` as the handlers use it. */
module Common {

  datatype Option<+T> = None | Some(value: T) {
    function GetOr(default: T): T
    {
      match this
      case Some(v) => v
      case None => default
    }
  }

  /** An HTTP reply as the handlers build it: a status code, the `message`
      field, and the `loginRequired` flag that the token gate sets. */
  datatype Response = Response(status: nat, message: string, loginRequired: bool)

  /** A reply without the `loginRequired` flag. */
  function Reply(status: nat, message: string): Response
  {
    Response(status, message, false)
  }

  /** A handler either produces its success payload or an error reply. */
  datatype Result<+T> = Ok(value: T) | Err(resp: Response)

  /** Python truthiness of an optional string field: present and non-empty. */
  predicate Present(s: Option<string>)
  {
    s.Some? && s.value != ""
  }

  /** The characters for which Python's `str.isspace()` holds, which are the
      ones `str.strip()` removes. */
  predicate IsSpace(c: char)
  {
    c == ' ' || ('\t' <= c <= '\r') || ('\U{1C}' <= c <= '\U{1F}')
    || c == '\U{85}' || c == '\U{A0}' || c == '\U{1680}'
    || ('\U{2000}' <= c <= '\U{200A}') || c == '\U{2028}' || c == '\U{2029}'
    || c == '\U{202F}' || c == '\U{205F}' || c == '\U{3000}'
  }

  ghost predicate AllSpace(s: string)
  {
    forall i :: 0 <= i < |s| ==> IsSpace(s[i])
  }

  /** The end of the run of white space in `s` that starts at `i`. */
  function SkipSpace(s: string, i: nat): (k: nat)
    requires i <= |s|
    ensures i <= k <= |s|
    ensures forall j :: i <= j < k ==> IsSpace(s[j])
    ensures k < |s| ==> !IsSpace(s[k])
    decreases |s| - i
  {
    if i < |s| && IsSpace(s[i]) then SkipSpace(s, i + 1) else i
  }

  /** The start of the run of white space in `s` that ends at `e`, going no
      further back than `lo`. */
  function SkipSpaceBack(s: string, lo: nat, e: nat): (k: nat)
    requires lo <= e <= |s|
    ensures lo <= k <= e
    ensures forall j :: k <= j < e ==> IsSpace(s[j])
    ensures k > lo ==> !IsSpace(s[k - 1])
  {
    if e > lo && IsSpace(s[e - 1]) then SkipSpaceBack(s, lo, e - 1) else e
  }

  /** How many white-space characters `s` starts with. */
  function LeadingSpace(s: string): (k: nat)
    ensures k <= |s|
    ensures forall j :: 0 <= j < k ==> IsSpace(s[j])
  {
    SkipSpace(s, 0)
  }

  /** Python's `s.strip()`: the infix of `s` left after removing white space
      at both ends; it neither starts nor ends with white space. */
  function Strip(s: string): (r: string)
    ensures LeadingSpace(s) + |r| <= |s|
    ensures r == s[LeadingSpace(s)..LeadingSpace(s) + |r|]
    ensures forall j :: LeadingSpace(s) + |r| <= j < |s| ==> IsSpace(s[j])
    ensures r != [] ==> !IsSpace(r[0]) && !IsSpace(r[|r| - 1])
  {
    var k := SkipSpace(s, 0);
    var e := SkipSpaceBack(s, k, |s|);
    s[k..e]
  }

  /** A string strips to the empty string exactly when it is all white space. */
  lemma StripEmptyIffBlank(s: string)
    ensures Strip(s) == "" <==> AllSpace(s)
  {
    var r := Strip(s);
    if r != "" {
      assert s[LeadingSpace(s)] == r[0];
    }
  }

  // Set facts used by the table models.

  /** Two sets that contain each other are equal. */
  lemma SetEq<X>(a: set<X>, b: set<X>)
    requires a <= b && b <= a
    ensures a == b
  {
  }

  /** A subset is no larger. */
  lemma SubsetCard<X>(a: set<X>, b: set<X>)
    requires a <= b
    ensures |a| <= |b|
  {
    SetEq(b * a, a);
    assert |b - a| == |b| - |b * a|;
  }

  /** Removing a member takes one away. */
  lemma RemoveCard<X>(a: set<X>, x: X)
    requires x in a
    ensures |a - {x}| == |a| - 1
  {
    SetEq(a * {x}, {x});
  }
}
