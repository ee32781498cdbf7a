/** Does a Data packet, or a name, satisfy an Interest (interest.cpp)? */
module Interests {
  import opened Wrappers
  import opened Components
  import opened Names
  import opened ExcludeMaps

  /** Negative suffix limits are absent; so is a key locator None. */
  datatype Interest = Interest(name: Name, minSuffixComponents: int, maxSuffixComponents: int,
                               exclude: seq<ExcludeMaps.Entry>,
                               keyLocator: Option<seq<byte>>)

  /** digest is the SHA-256 of the wire form, and None as long as there is none. */
  datatype Data = Data(name: Name, digest: Option<seq<byte>>, keyLocator: Option<seq<byte>>)

  function GetFullName(d: Data): Result<Name> {
    if d.digest.None? then Err(NotSigned) else Ok(d.name + [Component(IMPLICIT_DIGEST, d.digest.value)])
  }

  predicate MatchesName(i: Interest, name: Name) {
    if |name| < |i.name| then false
    else if !(i.name <= name) then false
    else if i.minSuffixComponents >= 0 && !(|name| - |i.name| >= i.minSuffixComponents) then false
    else if i.maxSuffixComponents >= 0 && !(|name| - |i.name| <= i.maxSuffixComponents) then false
    else if |i.exclude| > 0 && |name| > |i.name| && Excluded(i.exclude, name[|i.name|]) then false
    else true
  }

  // ----- matchesData, part by part -----

  predicate SuffixLimits(i: Interest, fullNameLength: nat) {
    var minSuffixComponents := if i.minSuffixComponents >= 0 then i.minSuffixComponents else 0;
    |i.name| + minSuffixComponents <= fullNameLength &&
    (i.maxSuffixComponents >= 0 ==> |i.name| + i.maxSuffixComponents >= fullNameLength)
  }

  function CheckPrefix(i: Interest, d: Data): Result<bool>
    requires |i.name| <= |d.name| + 1
  {
    if |i.name| == |d.name| + 1 then
      if !IsImplicitSha256Digest(i.name[|i.name| - 1]) then Ok(false)
      else
        match GetFullName(d)
        case Err(e) => Err(e)
        case Ok(full) => Ok(i.name == full)
    else Ok(i.name <= d.name)
  }

  /** True if the Exclude filter lets the packet pass. */
  function CheckExclude(i: Interest, d: Data): Result<bool>
    requires |i.name| <= |d.name| + 1
  {
    if |i.exclude| == 0 || |i.name| == |d.name| + 1 then Ok(true)
    else if |i.name| == |d.name| then
      match GetFullName(d)
      case Err(e) => Err(e)
      case Ok(full) => Ok(!Excluded(i.exclude, full[|i.name|]))
    else Ok(!Excluded(i.exclude, d.name[|i.name|]))
  }

  predicate CheckKeyLocator(i: Interest, d: Data) {
    i.keyLocator.Some? ==> d.keyLocator.Some? && i.keyLocator.value == d.keyLocator.value
  }

  function MatchesData(i: Interest, d: Data): Result<bool> {
    if !SuffixLimits(i, |d.name| + 1) then Ok(false)
    else
      match CheckPrefix(i, d)
      case Err(e) => Err(e)
      case Ok(prefix) =>
        if !prefix then Ok(false)
        else
          match CheckExclude(i, d)
          case Err(e) => Err(e)
          case Ok(allowed) => Ok(allowed && CheckKeyLocator(i, d))
  }

  // ----- what a match means -----

  /** What may follow the Interest's name: as many components as the limits allow, the first one not excluded. */
  predicate Suffix(i: Interest, rest: Name) {
    i.minSuffixComponents <= |rest| && (0 <= i.maxSuffixComponents ==> |rest| <= i.maxSuffixComponents) &&
    (|rest| > 0 ==> !Excluded(i.exclude, rest[0]))
  }

  /** A name matches if and only if it is the Interest's name and such a suffix. */
  lemma NameMatchMeaning(i: Interest, name: Name)
    ensures MatchesName(i, name) <==> exists rest :: name == i.name + rest && Suffix(i, rest)
  {
    if i.name <= name {
      var rest := name[|i.name|..];
      assert name == i.name + rest;
    }
    forall rest | name == i.name + rest
      ensures MatchesName(i, name) <==> Suffix(i, rest)
    {
      assert name[|i.name|..] == rest;
    }
  }

  /** The full name is needed only for a digest in the Interest or for an Exclude filter at the digest. */
  predicate NeedsFullName(i: Interest, d: Data) {
    SuffixLimits(i, |d.name| + 1) &&
    ((|i.name| == |d.name| + 1 && IsImplicitSha256Digest(i.name[|i.name| - 1])) ||
     (i.name == d.name && |i.exclude| > 0))
  }

  /** An unsigned packet raises an error exactly if the full name is needed; otherwise any digest gives the answer. */
  lemma UnsignedMatch(i: Interest, d: Data, digest: seq<byte>)
    requires d.digest.None? && |digest| == DIGEST_SIZE
    ensures MatchesData(i, d).Err? <==> NeedsFullName(i, d)
    ensures MatchesData(i, d).Ok? ==> MatchesData(i, d) == MatchesData(i, d.(digest := Some(digest)))
  {
  }

  /**
   * Whenever matchesData answers, and for a signed packet it always does, it says whether the full name matches and a
   * key locator that is asked for is the one in the packet. Without a wire form any digest stands for the packet's.
   */
  lemma DataMatchIsNameMatch(i: Interest, d: Data, digest: seq<byte>)
    requires |digest| == DIGEST_SIZE && (d.digest.Some? ==> d.digest.value == digest)
    ensures d.digest.Some? ==> MatchesData(i, d).Ok?
    ensures MatchesData(i, d).Ok? ==>
              (MatchesData(i, d).value <==>
                 (exists rest :: d.name + [Component(IMPLICIT_DIGEST, digest)] == i.name + rest && Suffix(i, rest)) &&
                 (i.keyLocator.Some? ==> d.keyLocator == i.keyLocator))
  {
    NameMatchMeaning(i, d.name + [Component(IMPLICIT_DIGEST, digest)]);
    if d.digest.None? {
      UnsignedMatch(i, d, digest);
    }
  }
}
