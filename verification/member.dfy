/** The Member entity: an email (the natural key), a plaintext password and
    the member's own list of wishlist rows. */
module Members {
  import opened Entities
  import opened Collections

  /** java.lang.String.equals on two non-null strings: equal lengths and the
      same character at every position, compared front to back. */
  function StringEquals(a: string, b: string): (same: bool)
    ensures same <==> a == b
  {
    if |a| == 0 || |b| == 0 then |a| == |b|
    else a[0] == b[0] && StringEquals(a[1..], b[1..])
  }

  class Member {
    // No setter exists and only the constructor assigns these, so they are
    // constants; what changes over time is the content of the wishlist list.
    const email: Email
    const password: string
    const wishlist: ArrayList<Wishlist>

    /** The member owns its list, and every row in it names this member. */
    ghost predicate Valid()
      reads wishlist
    {
      && wishlist.owner == email
      && forall w :: w in wishlist.elements ==> w.memberEmail == email
    }

    /** `new Member(email, password)`: both values stored as given, and a
        fresh, empty wishlist list. */
    constructor (email: Email, password: string)
      ensures GetEmail() == email && GetPassword() == password
      ensures fresh(GetWishlist()) && GetWishlist().elements == []
      ensures Valid()
    {
      this.email := email;
      this.password := password;
      wishlist := new ArrayList(email);
    }

    function GetEmail(): (e: Email)
      ensures e == email
    {
      email
    }

    function GetPassword(): (p: string)
      ensures p == password
    {
      password
    }

    /** The list object itself, not a copy of it. */
    function GetWishlist(): (list: ArrayList<Wishlist>)
      ensures list == wishlist
    {
      wishlist
    }

    /** Whether `password` matches the stored one, compared verbatim. */
    function IsCorrectPassword(password: string): (ok: bool)
      ensures ok <==> this.password == password
    {
      StringEquals(this.password, password)
    }
  }
}
