/** The authorization gates registered when the application boots. Each gate
    is a predicate over the role string of the authenticated user. */
module Gates {

  import opened Common

  const ADMIN: string := "Admin"
  const LIBRARIAN: string := "Librarian"
  const MEMBER: string := "Member"

  /** An authenticated user; the gates read only `role`. */
  datatype User = User(id: nat, name: string, email: string, role: string)

  /** The thirteen gates, in the order they are registered. */
  datatype Ability =
    | ManageBooks | DeleteBooks
    | BorrowBooks | ReturnBooks
    | ManageAuthors | DeleteAuthors
    | ViewUsers | ManageUsers | DeleteUsers
    | ViewBorrowRecords
    | ManageFines | PayFines
    | ManageReservations

  /** The name under which each gate is registered. */
  function Name(a: Ability): string
  {
    match a
    case ManageBooks => "manage-books"
    case DeleteBooks => "delete-books"
    case BorrowBooks => "borrow-books"
    case ReturnBooks => "return-books"
    case ManageAuthors => "manage-authors"
    case DeleteAuthors => "delete-authors"
    case ViewUsers => "view-users"
    case ManageUsers => "manage-users"
    case DeleteUsers => "delete-users"
    case ViewBorrowRecords => "view-borrow-records"
    case ManageFines => "manage-fines"
    case PayFines => "pay-fines"
    case ManageReservations => "manage-reservations"
  }

  /** The gate registered under `name`, if any. */
  function Lookup(name: string): (r: Option<Ability>)
    ensures r.Some? ==> Name(r.value) == name
  {
    if name == "manage-books" then Some(ManageBooks)
    else if name == "delete-books" then Some(DeleteBooks)
    else if name == "borrow-books" then Some(BorrowBooks)
    else if name == "return-books" then Some(ReturnBooks)
    else if name == "manage-authors" then Some(ManageAuthors)
    else if name == "delete-authors" then Some(DeleteAuthors)
    else if name == "view-users" then Some(ViewUsers)
    else if name == "manage-users" then Some(ManageUsers)
    else if name == "delete-users" then Some(DeleteUsers)
    else if name == "view-borrow-records" then Some(ViewBorrowRecords)
    else if name == "manage-fines" then Some(ManageFines)
    else if name == "pay-fines" then Some(PayFines)
    else if name == "manage-reservations" then Some(ManageReservations)
    else None
  }

  /** Each gate's closure: `in_array` over a two-role list or `===` against one role. */
  predicate Allows(a: Ability, u: User)
    ensures Allows(a, u) ==> u.role == ADMIN || u.role == LIBRARIAN || u.role == MEMBER
  {
    match a
    case ManageBooks => u.role in [ADMIN, LIBRARIAN]
    case DeleteBooks => u.role == ADMIN
    case BorrowBooks => u.role == MEMBER
    case ReturnBooks => u.role == MEMBER
    case ManageAuthors => u.role in [ADMIN, LIBRARIAN]
    case DeleteAuthors => u.role == ADMIN
    case ViewUsers => u.role == ADMIN
    case ManageUsers => u.role == ADMIN
    case DeleteUsers => u.role == ADMIN
    case ViewBorrowRecords => u.role in [ADMIN, LIBRARIAN]
    case ManageFines => u.role in [ADMIN, LIBRARIAN]
    case PayFines => u.role == MEMBER
    case ManageReservations => u.role in [ADMIN, LIBRARIAN]
  }

  /** Asking for a name that was never registered is denied. */
  predicate AllowsNamed(name: string, u: User)
    ensures AllowsNamed(name, u) <==> exists a :: Name(a) == name && Allows(a, u)
  {
    match Lookup(name)
    case Some(a) => Allows(a, u)
    case None => false
  }

  const StaffGates: set<Ability> :=
    {ManageBooks, ManageAuthors, ViewBorrowRecords, ManageFines, ManageReservations}
  const AdminGates: set<Ability> :=
    {DeleteBooks, DeleteAuthors, ViewUsers, ManageUsers, DeleteUsers}
  const MemberGates: set<Ability> :=
    {BorrowBooks, ReturnBooks, PayFines}

  /** Registering by name loses no gate: every gate is found again under its own name,
      so no registration overwrites another. */
  lemma NamesRoundTrip(a: Ability)
    ensures Lookup(Name(a)) == Some(a)
  {
  }

  lemma NamesDistinct(a: Ability, b: Ability)
    ensures Name(a) == Name(b) ==> a == b
  {
    NamesRoundTrip(a);
    NamesRoundTrip(b);
  }

  lemma StaffGatesAdminAndLibrarian(a: Ability, u: User)
    requires a in StaffGates
    ensures Allows(a, u) <==> u.role == ADMIN || u.role == LIBRARIAN
  {
  }

  lemma AdminGatesAdminOnly(a: Ability, u: User)
    requires a in AdminGates
    ensures Allows(a, u) <==> u.role == ADMIN
  {
  }

  lemma MemberGatesMemberOnly(a: Ability, u: User)
    requires a in MemberGates
    ensures Allows(a, u) <==> u.role == MEMBER
  {
  }

  /** The three audiences cover every gate and no gate is in two of them. */
  lemma GatesPartitioned(a: Ability)
    ensures a in StaffGates || a in AdminGates || a in MemberGates
    ensures !(a in StaffGates && a in AdminGates)
    ensures !(a in StaffGates && a in MemberGates)
    ensures !(a in AdminGates && a in MemberGates)
  {
  }

  /** Borrowing and managing books are never granted to the same user. */
  lemma NoBorrowerManagesBooks(u: User)
    ensures !(Allows(BorrowBooks, u) && Allows(ManageBooks, u))
  {
  }

  /** More generally, a user who holds a member gate holds no staff or admin gate. */
  lemma MemberHoldsNoStaffGate(a: Ability, b: Ability, u: User)
    requires a in MemberGates && b !in MemberGates
    ensures !(Allows(a, u) && Allows(b, u))
  {
    GatesPartitioned(b);
  }

  /** Whatever a librarian may do, an admin may do too. */
  lemma AdminCoversLibrarian(a: Ability, u: User, v: User)
    requires u.role == LIBRARIAN && v.role == ADMIN
    ensures Allows(a, u) ==> Allows(a, v)
  {
  }

  /** A role string other than the three known ones is denied by every gate,
      registered or not. */
  lemma UnknownRoleDenied(name: string, u: User)
    requires u.role != ADMIN && u.role != LIBRARIAN && u.role != MEMBER
    ensures !AllowsNamed(name, u)
  {
  }

  /** A name under which no gate is registered is denied to every user, whatever the role. */
  lemma UnregisteredDenied(name: string, u: User)
    requires Lookup(name).None?
    ensures !AllowsNamed(name, u)
  {
  }

  /** Gates look at the role alone: users with the same role get the same answers. */
  lemma RoleAlone(name: string, u: User, v: User)
    requires u.role == v.role
    ensures AllowsNamed(name, u) == AllowsNamed(name, v)
  {
  }
}
