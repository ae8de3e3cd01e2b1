/** Shared vocabulary of the upload model: optional and failing results, the
    JavaScript string tests the components use, id allocation and the decimal
    rendering of ids inside generated URLs. */
module Common {

  /** A nullable value (`null` in the JavaScript source). */
  datatype Option<+T> = None | Some(value: T) {
    /** The carried value, or `default` when absent. */
    function GetOr(default: T): T {
      match this
      case Some(v) => v
      case None => default
    }
  }

  /** The errors the two stores throw. */
  datatype ServiceError =
    | NotFound                          // 'File upload not found' / 'Upload session not found'
    | UnsupportedType(mimeType: string) // 'File type <type> is not supported'
    | TooLarge                          // 'File size exceeds 50MB limit'

  /** A store call either resolves with a value or rejects with an error. */
  datatype Result<+T> = Ok(value: T) | Err(error: ServiceError)

  /** The 50 MiB limit that both the selection check and the store enforce. */
  const MaxFileSize: nat := 50 * 1024 * 1024

  /** `s.startsWith(prefix)`. */
  predicate StartsWith(s: string, prefix: string) {
    |prefix| <= |s| && s[..|prefix|] == prefix
  }

  /** `s.includes(sub)`: `sub` occurs at some position of `s`. */
  predicate Contains(s: string, sub: string)
    decreases |s|
  {
    StartsWith(s, sub) || (|s| > 0 && Contains(s[1..], sub))
  }

  /** An occurrence at position `i` makes `includes` true. */
  lemma {:induction false} ContainsAt(s: string, sub: string, i: nat)
    requires i + |sub| <= |s| && s[i..i + |sub|] == sub
    ensures Contains(s, sub)
    decreases i
  {
    if i > 0 {
      assert s[1..][i - 1..i - 1 + |sub|] == s[i..i + |sub|];
      ContainsAt(s[1..], sub, i - 1);
    }
  }

  /** `sub` cannot occur where its first character never starts a window. */
  lemma {:induction false} NotContains(s: string, sub: string)
    requires |sub| > 0
    requires forall i :: 0 <= i && i + |sub| <= |s| ==> s[i] != sub[0]
    ensures !Contains(s, sub)
    decreases |s|
  {
    if |s| > 0 {
      assert forall i :: 0 <= i && i + |sub| <= |s[1..]| ==> s[1..][i] == s[i + 1];
      NotContains(s[1..], sub);
    }
  }

  /** JavaScript truthiness of a nullable string: `null` and `""` are false. */
  predicate Truthy(o: Option<string>) {
    o.Some? && o.value != ""
  }

  /** No id occurs twice. */
  predicate Unique(ids: seq<int>) {
    forall i, j :: 0 <= i < j < |ids| ==> ids[i] != ids[j]
  }

  /** `Math.max(...ids)` for a non-empty list. */
  function MaxOf(ids: seq<int>): (m: int)
    requires |ids| > 0
    ensures m in ids
    ensures forall i :: 0 <= i < |ids| ==> ids[i] <= m
  {
    if |ids| == 1 then ids[0]
    else
      var rest := MaxOf(ids[1..]);
      if ids[0] >= rest then ids[0] else rest
  }

  /** The id both stores give a new entry: one more than the largest id, or 1
      for an empty store. */
  function NextId(ids: seq<int>): (n: int)
    ensures forall i :: 0 <= i < |ids| ==> ids[i] < n
    ensures n !in ids
    ensures |ids| == 0 ==> n == 1
    ensures |ids| > 0 ==> n - 1 in ids
  {
    if |ids| > 0 then MaxOf(ids) + 1 else 1
  }

  /** Appending a fresh id keeps the ids unique. */
  lemma AppendFreshUnique(ids: seq<int>, n: int)
    requires Unique(ids)
    requires n !in ids
    ensures Unique(ids + [n])
  {
  }

  /** Cutting one position out keeps the ids unique. */
  lemma UniqueCut(ids: seq<int>, i: nat)
    requires Unique(ids)
    requires i < |ids|
    ensures Unique(ids[..i] + ids[i + 1..])
  {
    var r := ids[..i] + ids[i + 1..];
    forall a, b | 0 <= a < b < |r|
      ensures r[a] != r[b]
    {
      var a', b' := if a < i then a else a + 1, if b < i then b else b + 1;
      assert r[a] == ids[a'] && r[b] == ids[b'];
    }
  }

  /** Cutting position `i` out of a list keeps every other element. */
  lemma CutKeeps<T>(s: seq<T>, i: nat, x: T)
    requires i < |s| && x in s && x != s[i]
    ensures x in s[..i] + s[i + 1..]
  {
    var k :| 0 <= k < |s| && s[k] == x;
    var rest := s[..i] + s[i + 1..];
    if k < i {
      assert rest[k] == x;
    } else {
      assert rest[k - 1] == x;
    }
  }

  /** `findIndex(x => x.Id === id)`: the first position holding `id`. */
  function FirstIndex(ids: seq<int>, id: int): (r: Option<nat>)
    ensures r.Some? <==> id in ids
    ensures r.Some? ==> r.value < |ids| && ids[r.value] == id
    ensures r.Some? ==> forall j :: 0 <= j < r.value ==> ids[j] != id
  {
    if |ids| == 0 then None
    else if ids[0] == id then Some(0)
    else
      match FirstIndex(ids[1..], id)
      case None => None
      case Some(k) => Some(k + 1)
  }

  /** In a list of unique ids, the only position holding `ids[k]` is `k`. */
  lemma UniqueIndex(ids: seq<int>, k: nat)
    requires Unique(ids)
    requires k < |ids|
    ensures FirstIndex(ids, ids[k]) == Some(k)
  {
  }

  /** Decimal digit character for 0..9. */
  function Digit(d: nat): (c: char)
    requires d < 10
    ensures '0' <= c <= '9'
  {
    "0123456789"[d]
  }

  /** Decimal rendering of a natural number, as `${n}` prints it. */
  function NatToDecimal(n: nat): (s: string)
    ensures |s| > 0
    ensures forall i :: 0 <= i < |s| ==> '0' <= s[i] <= '9'
  {
    if n < 10 then [Digit(n)] else NatToDecimal(n / 10) + [Digit(n % 10)]
  }

  /** Decimal rendering of an integer, with a leading '-' for negatives. */
  function IntToDecimal(n: int): (s: string)
    ensures |s| > 0
  {
    if n < 0 then "-" + NatToDecimal(-n) else NatToDecimal(n)
  }

  lemma DigitInjective(a: nat, b: nat)
    requires a < 10 && b < 10
    requires Digit(a) == Digit(b)
    ensures a == b
  {
  }

  /** Different numbers print differently. */
  lemma {:induction false} NatToDecimalInjective(a: nat, b: nat)
    requires NatToDecimal(a) == NatToDecimal(b)
    ensures a == b
  {
    var sa, sb := NatToDecimal(a), NatToDecimal(b);
    if a < 10 && b < 10 {
      DigitInjective(a, b);
    } else if a >= 10 && b >= 10 {
      var pa, pb := NatToDecimal(a / 10), NatToDecimal(b / 10);
      assert sa == pa + [Digit(a % 10)];
      assert sb == pb + [Digit(b % 10)];
      assert sa[|sa| - 1] == Digit(a % 10);
      assert sb[|sb| - 1] == Digit(b % 10);
      DigitInjective(a % 10, b % 10);
      assert pa == sa[..|sa| - 1];
      assert pb == sb[..|sb| - 1];
      NatToDecimalInjective(a / 10, b / 10);
    }
  }

  /** The printed form starts with '-' exactly for negative numbers. */
  lemma SignCharacter(n: int)
    ensures IntToDecimal(n)[0] == '-' <==> n < 0
  {
    if n >= 0 {
      assert '0' <= NatToDecimal(n)[0] <= '9';
    }
  }

  /** Different ids print differently, so URLs built from them differ. */
  lemma IntToDecimalInjective(a: int, b: int)
    requires IntToDecimal(a) == IntToDecimal(b)
    ensures a == b
  {
    var sa, sb := IntToDecimal(a), IntToDecimal(b);
    SignCharacter(a);
    SignCharacter(b);
    if a < 0 {
      assert NatToDecimal(-a) == sa[1..];
      assert NatToDecimal(-b) == sb[1..];
      NatToDecimalInjective(-a, -b);
    } else {
      NatToDecimalInjective(a, b);
    }
  }

  /** A prefix followed by the printed id determines the id. */
  lemma PrefixedIdInjective(prefix: string, a: int, b: int)
    requires prefix + IntToDecimal(a) == prefix + IntToDecimal(b)
    ensures a == b
  {
    var sa, sb := prefix + IntToDecimal(a), prefix + IntToDecimal(b);
    assert IntToDecimal(a) == sa[|prefix|..];
    assert IntToDecimal(b) == sb[|prefix|..];
    IntToDecimalInjective(a, b);
  }
}
