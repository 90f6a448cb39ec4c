/** The member service: registration, login and the wishlist operations,
    over three stores — members by email, products by id, and wishlist rows.
    Every operation looks things up, checks, and then writes at most one row;
    a failed check is returned as an `Error` value instead of being thrown. */
module MemberServices {
  import opened Entities
  import opened Collections
  import opened Members

  /** Which kind of record an error is about. */
  datatype Entity = MemberEntity | ProductEntity | WishlistEntity

  /** The exceptions the service throws: IllegalArgumentException for an
      email or wishlist row that already exists and for a wrong password,
      NoSuchElementException for a member, product or row that is missing. */
  datatype Error = AlreadyExists(entity: Entity) | NotFound(entity: Entity) | InvalidPassword

  /** The outcome of an operation that returns nothing. */
  datatype Outcome = Pass | Fail(error: Error)

  /** The outcome of an operation that returns a value. */
  datatype Result<T> = Ok(value: T) | Err(error: Error)

  /** A token as requested from the token issuer: its subject and how long it
      stays valid. The signing itself is not part of this model. */
  datatype Token = Jwt(subject: Email, ttlMillis: int)

  /** A request naming a member and a product. */
  datatype WishlistRequest = WishlistRequest(email: Email, productId: ProductId)

  /** Thirty minutes in milliseconds; 1,800,000 fits in a Java int. */
  const LoginTtlMillis: int := 1000 * 60 * 30

  /** `stream().map(o -> new ProductDto(o.getProduct())).toList()`: each row
      projected to its product, one for one, in list order. */
  function ToProducts(rows: seq<Wishlist>): (ids: seq<ProductId>)
    ensures |ids| == |rows|
    ensures forall i :: 0 <= i < |rows| ==> ids[i] == rows[i].productId
  {
    if rows == [] then [] else [rows[0].productId] + ToProducts(rows[1..])
  }

  /** Appending a row to a list appends its product to the projection. */
  lemma ToProductsAppend(rows: seq<Wishlist>, w: Wishlist)
    ensures ToProducts(rows + [w]) == ToProducts(rows) + [w.productId]
  {
  }

  class MemberService {
    /** The member store: email to member entity. */
    var members: map<Email, Member>
    /** The product store: the ids of the stored products, each with the
        product's own in-memory list of wishlist rows. */
    var products: map<ProductId, seq<Wishlist>>
    /** The wishlist store. A multiset, because the store itself does not
        forbid two rows for one pair: only the service's check does. */
    var wishlists: multiset<Wishlist>

    /** The in-memory wishlist list objects of the given members. */
    static ghost function ListsOf(members: map<Email, Member>): set<ArrayList<Wishlist>>
    {
      set e | e in members :: members[e].wishlist
    }

    /** What the stores hold together: members are filed under their own
        email and own their lists; each product's list holds only its rows;
        each stored row is unique, names a stored member and product, and is
        in both of their in-memory lists. */
    static ghost predicate Consistent(members: map<Email, Member>, products: map<ProductId, seq<Wishlist>>,
                                      wishlists: multiset<Wishlist>)
      reads ListsOf(members)
    {
      && (forall e :: e in members ==> members[e].email == e && members[e].Valid())
      && (forall p :: p in products ==> forall w :: w in products[p] ==> w.productId == p)
      && (forall w :: w in wishlists ==>
            && wishlists[w] == 1
            && w.memberEmail in members && w in members[w.memberEmail].wishlist.elements
            && w.productId in products && w in products[w.productId])
    }

    ghost function Lists(): set<ArrayList<Wishlist>>
      reads this
    {
      ListsOf(members)
    }

    ghost predicate Valid()
      reads this, Lists()
    {
      Consistent(members, products, wishlists)
    }

    /** Every member's in-memory wishlist list, by email. */
    ghost function MemberLists(): map<Email, seq<Wishlist>>
      reads this, Lists()
    {
      map e | e in members :: members[e].wishlist.elements
    }

    /** A service over stores that already hold the given records. */
    constructor (members: map<Email, Member>, products: map<ProductId, seq<Wishlist>>,
                 wishlists: multiset<Wishlist>)
      requires Consistent(members, products, wishlists)
      ensures Valid()
      ensures this.members == members && this.products == products && this.wishlists == wishlists
    {
      this.members := members;
      this.products := products;
      this.wishlists := wishlists;
    }

    /** Email is a unique key: two entries of the member store are two
        different members, with different emails and different lists. */
    lemma EmailIsUniqueKey(e1: Email, e2: Email)
      requires Valid()
      requires e1 in members && e2 in members && e1 != e2
      ensures members[e1] != members[e2]
      ensures members[e1].GetEmail() != members[e2].GetEmail()
      ensures members[e1].GetWishlist() != members[e2].GetWishlist()
    {
    }

    /** registerMember: fails if the email is taken, otherwise stores the
        member under its email. */
    method RegisterMember(member: Member) returns (r: Outcome)
      requires Valid() && member.Valid()
      modifies this
      ensures Valid()
      ensures r.Fail? <==> member.email in old(members)
      ensures r.Fail? ==> r.error == AlreadyExists(MemberEntity) && members == old(members)
      ensures r.Pass? ==> members == old(members)[member.email := member]
      ensures products == old(products) && wishlists == old(wishlists)
    {
      if member.GetEmail() in members {
        return Fail(AlreadyExists(MemberEntity));
      }
      members := members[member.GetEmail() := member];
      r := Pass;
    }

    /** login: the email must be registered and the password must match;
        then a token for that email, valid for thirty minutes. Reads only. */
    function Login(member: Member): (r: Result<Token>)
      reads this
      ensures r == Err(NotFound(MemberEntity)) <==> member.email !in members
      ensures r == Err(InvalidPassword) <==>
                member.email in members && members[member.email].password != member.password
      ensures r.Ok? <==> member.email in members && members[member.email].password == member.password
      ensures r.Ok? ==> r.value == Jwt(member.email, 1_800_000)
    {
      if member.GetEmail() !in members then Err(NotFound(MemberEntity))
      else if !members[member.GetEmail()].IsCorrectPassword(member.GetPassword()) then Err(InvalidPassword)
      else Ok(Jwt(member.GetEmail(), LoginTtlMillis))
    }

    /** getAllWishlist: the products of the member's in-memory wishlist list,
        one per entry, in list order. */
    function GetAllWishlist(email: Email): (r: Result<seq<ProductId>>)
      reads this, Lists()
      ensures r.Err? <==> email !in members
      ensures r.Err? ==> r.error == NotFound(MemberEntity)
      ensures r.Ok? ==> |r.value| == |members[email].wishlist.elements|
      ensures r.Ok? ==> forall i :: 0 <= i < |r.value| ==> r.value[i] == members[email].wishlist.elements[i].productId
    {
      if email !in members then Err(NotFound(MemberEntity))
      else Ok(ToProducts(members[email].GetWishlist().elements))
    }

    /** A row in the wishlist store is always listed for its member. */
    lemma StoredWishlistIsListed(w: Wishlist)
      requires Valid() && w in wishlists
      ensures GetAllWishlist(w.memberEmail).Ok?
      ensures w.productId in GetAllWishlist(w.memberEmail).value
    {
    }

    /** convertWishlistRequestToWishlist: the member is looked up first, then
        the product; the row links the two. */
    function ConvertWishlistRequestToWishlist(wish: WishlistRequest): (r: Result<Wishlist>)
      reads this
      ensures r == Err(NotFound(MemberEntity)) <==> wish.email !in members
      ensures r == Err(NotFound(ProductEntity)) <==> wish.email in members && wish.productId !in products
      ensures r.Ok? <==> wish.email in members && wish.productId in products
      ensures r.Ok? ==> r.value == Wishlist(wish.email, wish.productId)
    {
      if wish.email !in members then Err(NotFound(MemberEntity))
      else if wish.productId !in products then Err(NotFound(ProductEntity))
      else Ok(Wishlist(wish.email, wish.productId))
    }

    /** The first step of addWishlist: the row goes at the end of its
        member's list, through the list the member hands out, and at the end
        of its product's list. No store is written. */
    method AppendToLists(w: Wishlist)
      requires Valid() && w.memberEmail in members && w.productId in products
      modifies this`products, members[w.memberEmail].wishlist
      ensures Valid()
      ensures members[w.memberEmail].wishlist.elements == old(members[w.memberEmail].wishlist.elements) + [w]
      ensures unchanged(Lists() - {members[w.memberEmail].wishlist})
      ensures products == old(products)[w.productId := old(products[w.productId]) + [w]]
    {
      var list := members[w.memberEmail].GetWishlist();
      assert forall e :: e in members && e != w.memberEmail ==> members[e].wishlist != list;
      list.Add(w);
      products := products[w.productId := products[w.productId] + [w]];
    }

    /** The wishlist store's save: one more row for the pair. Keeping every
        pair unique is up to the caller, which must have checked it is new. */
    method SaveWishlist(w: Wishlist)
      requires Valid() && w !in wishlists
      requires w.memberEmail in members && w in members[w.memberEmail].wishlist.elements
      requires w.productId in products && w in products[w.productId]
      modifies this`wishlists
      ensures Valid()
      ensures wishlists == old(wishlists) + multiset{w}
    {
      wishlists := wishlists + multiset{w};
    }

    /** Lines 82-88 of addWishlist, once member and product are found: the
        row is appended to both in-memory lists and only then checked against
        the store; a duplicate is refused but the appends stay. */
    method AppendCheckAndSave(w: Wishlist) returns (r: Outcome)
      requires Valid() && w.memberEmail in members && w.productId in products
      modifies this`products, this`wishlists, members[w.memberEmail].wishlist
      ensures Valid()
      ensures members[w.memberEmail].wishlist.elements == old(members[w.memberEmail].wishlist.elements) + [w]
      ensures GetAllWishlist(w.memberEmail) == Ok(old(GetAllWishlist(w.memberEmail)).value + [w.productId])
      ensures products == old(products)[w.productId := old(products[w.productId]) + [w]]
      ensures w in old(wishlists) ==> r == Fail(AlreadyExists(WishlistEntity)) && wishlists == old(wishlists)
      ensures w !in old(wishlists) ==> r == Pass && wishlists == old(wishlists) + multiset{w}
    {
      ghost var before := members[w.memberEmail].wishlist.elements;
      AppendToLists(w);
      ToProductsAppend(before, w);
      if w in wishlists {
        return Fail(AlreadyExists(WishlistEntity));
      }
      SaveWishlist(w);
      r := Pass;
    }

    /** addWishlist: the member is looked up, then the product, then the row
        is appended, checked for a duplicate and saved. */
    method AddWishlist(wish: WishlistRequest) returns (r: Outcome)
      requires Valid()
      modifies this, Lists()
      ensures Valid()
      ensures members == old(members)
      ensures wish.email !in old(members) ==> r == Fail(NotFound(MemberEntity))
      ensures wish.email in old(members) && wish.productId !in old(products) ==> r == Fail(NotFound(ProductEntity))
      ensures r == Fail(NotFound(MemberEntity)) || r == Fail(NotFound(ProductEntity)) ==>
                products == old(products) && wishlists == old(wishlists) && unchanged(Lists())
      ensures wish.email in old(members) && wish.productId in old(products) ==>
                var w := Wishlist(wish.email, wish.productId);
                && members[wish.email].wishlist.elements == old(members[wish.email].wishlist.elements) + [w]
                && unchanged(Lists() - {members[wish.email].wishlist})
                && GetAllWishlist(wish.email) == Ok(old(GetAllWishlist(wish.email)).value + [wish.productId])
                && products == old(products)[wish.productId := old(products[wish.productId]) + [w]]
                && (w in old(wishlists) ==> r == Fail(AlreadyExists(WishlistEntity)) && wishlists == old(wishlists))
                && (w !in old(wishlists) ==> r == Pass && wishlists == old(wishlists) + multiset{w})
    {
      var converted := ConvertWishlistRequestToWishlist(wish);
      if converted.Err? {
        return Fail(converted.error);
      }
      r := AppendCheckAndSave(converted.value);
    }

    /** deleteWishlist: once member and product are found, the row must be in
        the store; then every row for that pair is deleted. The in-memory
        lists are not touched. */
    method DeleteWishlist(wish: WishlistRequest) returns (r: Outcome)
      requires Valid()
      modifies this
      ensures Valid()
      ensures members == old(members) && products == old(products) && MemberLists() == old(MemberLists())
      ensures wish.email !in old(members) ==> r == Fail(NotFound(MemberEntity))
      ensures wish.email in old(members) && wish.productId !in old(products) ==> r == Fail(NotFound(ProductEntity))
      ensures wish.email in old(members) && wish.productId in old(products) ==>
                (r == Pass <==> Wishlist(wish.email, wish.productId) in old(wishlists))
      ensures wish.email in old(members) && wish.productId in old(products) ==>
                (r == Fail(NotFound(WishlistEntity)) <==> Wishlist(wish.email, wish.productId) !in old(wishlists))
      ensures r.Fail? ==> wishlists == old(wishlists)
      ensures r.Pass? ==> wishlists == old(wishlists)[Wishlist(wish.email, wish.productId) := 0]
    {
      var converted := ConvertWishlistRequestToWishlist(wish);
      if converted.Err? {
        return Fail(converted.error);
      }
      var w := converted.value;
      if w !in wishlists {
        return Fail(NotFound(WishlistEntity));
      }
      wishlists := wishlists[w := 0];
      r := Pass;
    }
  }
}
