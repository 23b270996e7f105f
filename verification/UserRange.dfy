/** User memory ranges: the checks on an address and length, and the walk over every page they touch. */
module UserRange {
  import opened Common

  const PAGE := 4096
  const USER_ADDRESS_MAX := 0x7FFF_FFFF_FFFF

  datatype Access = Read | Write

  datatype RangeError = NullAddress | LengthExceedsMaximum | NonCanonicalStart | NonCanonicalEnd
                      | AddressOverflow | OutsideUserSpace | InvalidUserLimit

  datatype Range = UserRange(start: nat, len: nat, access: Access)

  /** What the fields of every constructed range satisfy. */
  predicate InUserSpace(r: Range) {
    r.start + r.len <= USER_ADDRESS_MAX + 1
  }

  /** The last address the caller names: an empty range still names its start. */
  function LastNamed(start: nat, len: nat): nat {
    if len == 0 then start else start + len - 1
  }

  /** Accepted exactly when the whole range is at or below the limit, is not a null buffer, and is not too long;
      each refusal names a condition that really fails. */
  function NewWithLimit(start: nat, len: nat, access: Access, maxCopy: nat, limit: nat): (r: Result<Range, RangeError>)
    requires start < U64 && len < U64 && limit < U64
    ensures r.Ok? <==> && limit <= USER_ADDRESS_MAX && (len == 0 || start != 0) && len <= maxCopy
                       && LastNamed(start, len) <= limit
    ensures r.Ok? ==> r.value == UserRange(start, len, access) && InUserSpace(r.value)
    ensures r == Err(InvalidUserLimit) ==> limit > USER_ADDRESS_MAX
    ensures r == Err(NullAddress) ==> start == 0 && len != 0
    ensures r == Err(LengthExceedsMaximum) ==> len > maxCopy
    ensures r == Err(NonCanonicalStart) ==> start > USER_ADDRESS_MAX
    ensures r == Err(AddressOverflow) ==> start + len >= U64
    ensures r == Err(NonCanonicalEnd) ==> start <= USER_ADDRESS_MAX < LastNamed(start, len) < U64 - 1
    ensures r == Err(OutsideUserSpace) ==> limit < LastNamed(start, len) <= USER_ADDRESS_MAX
  {
    if limit > USER_ADDRESS_MAX then Err(InvalidUserLimit)
    else if start == 0 && len != 0 then Err(NullAddress)
    else if len > maxCopy then Err(LengthExceedsMaximum)
    else if start > USER_ADDRESS_MAX then Err(NonCanonicalStart)
    else if start + len >= U64 then Err(AddressOverflow)
    else if len != 0 then
      if start + len - 1 > USER_ADDRESS_MAX then Err(NonCanonicalEnd)
      else if start + len > limit + 1 then Err(OutsideUserSpace)
      else Ok(UserRange(start, len, access))
    else if start > limit then Err(OutsideUserSpace)
    else Ok(UserRange(start, len, access))
  }

  /** The page an address lies in. */
  function PageOf(address: nat): nat { address / PAGE }

  function PageStart(page: nat): nat { page * PAGE }

  function PageCount(r: Range): nat
  {
    if r.len == 0 then 0 else PageOf(r.start + r.len - 1) - PageOf(r.start) + 1
  }

  /** A page is one of the counted ones exactly when some byte of the range lies in it. */
  lemma PagesAreTouched(r: Range, page: nat)
    ensures PageOf(r.start) <= page < PageOf(r.start) + PageCount(r)
            <==> exists b :: r.start <= b < r.start + r.len && PageOf(b) == page
  {
    if PageOf(r.start) <= page < PageOf(r.start) + PageCount(r) {
      var b := if page == PageOf(r.start) then r.start else PageStart(page);
      assert r.start <= b < r.start + r.len && PageOf(b) == page;
    }
  }

  datatype Permissions = Permissions(present: bool, user: bool, writable: bool)

  datatype PageError = Unmapped(page: nat) | NotUserAccessible(page: nat) | NotWritable(page: nat)

  predicate Permits(p: Permissions, access: Access) {
    p.present && p.user && (access == Write ==> p.writable)
  }

  /** Why a page is refused; presence is reported before privilege, privilege before write access. */
  function Refusal(p: Permissions, page: nat): PageError {
    if !p.present then Unmapped(page) else if !p.user then NotUserAccessible(page) else NotWritable(page)
  }

  /** Every byte of the range lies in a permitted page. */
  ghost predicate AllBytesPermitted(r: Range, resolve: nat -> Permissions) {
    forall b :: r.start <= b < r.start + r.len ==> Permits(resolve(PageStart(PageOf(b))), r.access)
  }

  /** The bytes of the range below page `page` are permitted. */
  ghost predicate PermittedBelow(r: Range, resolve: nat -> Permissions, page: nat) {
    forall b :: r.start <= b < r.start + r.len && PageOf(b) < page ==> Permits(resolve(PageStart(PageOf(b))), r.access)
  }

  /** Success exactly when every byte is in a permitted page; a failure names the lowest page that refuses
      one of the range's bytes, with its reason. */
  method ValidatePages(r: Range, resolve: nat -> Permissions) returns (e: Option<PageError>)
    requires InUserSpace(r)
    ensures e == None <==> AllBytesPermitted(r, resolve)
    ensures e.Some? ==> exists b :: r.start <= b < r.start + r.len && FirstRefusal(r, resolve, b, e.value)
  {
    if r.len == 0 { return None; }
    var firstPage := PageOf(r.start) * PAGE;
    var i: nat := 0;
    while i < PageCount(r)
      invariant i <= PageCount(r)
      invariant PermittedBelow(r, resolve, PageOf(r.start) + i)
    {
      ghost var b := Touched(r, PageOf(r.start) + i);
      var page := firstPage + i * PAGE;
      assert page == PageStart(PageOf(b));
      var p := resolve(page);
      if !p.present { assert FirstRefusal(r, resolve, b, Unmapped(page)); return Some(Unmapped(page)); }
      if !p.user { assert FirstRefusal(r, resolve, b, NotUserAccessible(page)); return Some(NotUserAccessible(page)); }
      if r.access == Write && !p.writable {
        assert FirstRefusal(r, resolve, b, NotWritable(page));
        return Some(NotWritable(page));
      }
      i := i + 1;
    }
    e := None;
    forall b | r.start <= b < r.start + r.len ensures PageOf(b) < PageOf(r.start) + PageCount(r) {
      PagesAreTouched(r, PageOf(b));
    }
  }

  /** Byte `b` is refused for reason `e`, and no byte in a lower page is refused. */
  ghost predicate FirstRefusal(r: Range, resolve: nat -> Permissions, b: nat, e: PageError) {
    var page := PageStart(PageOf(b));
    !Permits(resolve(page), r.access) && e == Refusal(resolve(page), page) && PermittedBelow(r, resolve, PageOf(b))
  }

  ghost function Touched(r: Range, page: nat): (b: nat)
    requires PageOf(r.start) <= page < PageOf(r.start) + PageCount(r)
    ensures r.start <= b < r.start + r.len && PageOf(b) == page
  {
    PagesAreTouched(r, page);
    var b :| r.start <= b < r.start + r.len && PageOf(b) == page;
    b
  }
}
