/** Result and Option values that stand for the source's exceptions, end iterators and null pointers. */
module Wrappers {

  datatype Option<+T> = None | Some(value: T)

  datatype Error =
    | BadComponentType      // not a generic component and not a 32-byte digest component
    | BadDigestUri          // "sha256digest=" not followed by 64 hexadecimal digits
    | DotComponent          // a URI component of zero, one or two periods
    | InvalidExcludeRange   // an exclude range whose start does not come before its end
    | EmptyExclude          // an Exclude element without content
    | UnexpectedType        // the outer TLV type is not Exclude
    | BadExcludeFormat      // something other than a name component inside an Exclude element
    | OutOfBounds           // a component or byte beyond the end
    | NotSigned             // the full name of a Data packet without wire form

  datatype Result<+T> = Ok(value: T) | Err(error: Error)

  /** What holds first, and is kept by each step except by the bad ones, holds throughout if and only if none is bad. */
  lemma {:induction false} Throughout(good: int -> bool, bad: int -> bool, n: nat)
    requires good(0) && forall k :: 0 <= k < n && good(k) ==> (good(k + 1) <==> !bad(k))
    ensures (forall j :: 0 <= j <= n ==> good(j)) <==> forall i :: 0 <= i < n ==> !bad(i)
  {
    if n > 0 {
      Throughout(good, bad, n - 1);
      if forall j :: 0 <= j < n ==> good(j) {
        assert good(n - 1 + 1) <==> !bad(n - 1);
      }
    }
  }
}
