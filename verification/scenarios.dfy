/** Walk-throughs of the service from a caller's side, using nothing but the
    contracts of the service and the member entity. */
module Scenarios {
  import opened Entities
  import opened Members
  import opened MemberServices

  /** Registering an email twice keeps the first member. */
  method RegisterTwice() {
    var service := new MemberService(map[], map[], multiset{});
    var first := new Member("a@x.com", "p1");
    var r := service.RegisterMember(first);
    assert r == Pass;

    var second := new Member("a@x.com", "p2");
    r := service.RegisterMember(second);
    assert r == Fail(AlreadyExists(MemberEntity));
    assert service.members == map["a@x.com" := first];
  }

  /** Login accepts only the registered member's own password. */
  method LoginChecksPassword() {
    var stored := new Member("a@x.com", "p1");
    var service := new MemberService(map["a@x.com" := stored], map[], multiset{});
    var right := new Member("a@x.com", "p1");
    var wrong := new Member("a@x.com", "wrong");
    var stranger := new Member("b@x.com", "p1");
    assert service.Login(right) == Ok(Jwt("a@x.com", 1_800_000));
    assert service.Login(wrong) == Err(InvalidPassword);
    assert service.Login(stranger) == Err(NotFound(MemberEntity));
  }

  /** A new member with an empty list, and product 42 in the product store. */
  method FreshMemberAndProduct() returns (service: MemberService, member: Member)
    ensures fresh(service) && fresh(member) && fresh(member.wishlist)
    ensures service.Valid() && member.email == "a@x.com"
    ensures service.members == map["a@x.com" := member] && member.wishlist.elements == []
    ensures service.products == map[42 := []] && service.wishlists == multiset{}
  {
    member := new Member("a@x.com", "p1");
    service := new MemberService(map["a@x.com" := member], map[42 := []], multiset{});
  }

  /** After a first add the product is listed once and stored once. */
  method AddThenList() {
    var service, member := FreshMemberAndProduct();
    assert service.GetAllWishlist("a@x.com") == Ok([]);
    var r := service.AddWishlist(WishlistRequest("a@x.com", 42));
    assert r == Pass;
    var listed := service.GetAllWishlist("a@x.com");
    assert listed.value[0] == 42;
    assert listed.value == [42];
    assert listed == Ok([42]);
    assert service.wishlists == multiset{Wishlist("a@x.com", 42)};
  }

  /** An unknown product, and an unknown member, are refused. */
  method AddMissing() {
    var service, member := FreshMemberAndProduct();
    var r := service.AddWishlist(WishlistRequest("a@x.com", 999));
    assert r == Fail(NotFound(ProductEntity));
    r := service.AddWishlist(WishlistRequest("b@x.com", 42));
    assert r == Fail(NotFound(MemberEntity));
    assert service.wishlists == multiset{};
  }

  /** A member who already has product 42 on the list and in the store. */
  method MemberWithProduct() returns (service: MemberService, member: Member)
    ensures fresh(service) && fresh(member) && fresh(member.wishlist)
    ensures service.Valid() && member.email == "a@x.com"
    ensures service.members == map["a@x.com" := member]
    ensures member.wishlist.elements == [Wishlist("a@x.com", 42)]
    ensures service.wishlists == multiset{Wishlist("a@x.com", 42)}
  {
    var w := Wishlist("a@x.com", 42);
    member := new Member("a@x.com", "p1");
    member.GetWishlist().Add(w);
    service := new MemberService(map["a@x.com" := member], map[42 := [w]], multiset{w});
  }

  /** A repeated add is refused by the store check, yet the member's
      in-memory list has already grown: the listing shows 42 twice. */
  method DuplicateAdd() {
    var service, member := MemberWithProduct();
    var r := service.AddWishlist(WishlistRequest("a@x.com", 42));
    assert r == Fail(AlreadyExists(WishlistEntity));
    assert service.wishlists == multiset{Wishlist("a@x.com", 42)};
    var listed := service.GetAllWishlist("a@x.com");
    assert listed.value[0] == 42 && listed.value[1] == 42;
    assert listed.value == [42, 42];
    assert listed == Ok([42, 42]);
  }

  /** A delete removes the stored row but not the in-memory entry; a second
      delete finds no row. */
  method DeleteTwice() {
    var service, member := MemberWithProduct();
    var r := service.DeleteWishlist(WishlistRequest("a@x.com", 42));
    assert r == Pass;
    assert service.wishlists == multiset{};
    var listed := service.GetAllWishlist("a@x.com");
    assert listed.value[0] == 42;
    assert listed.value == [42];
    assert listed == Ok([42]);
    r := service.DeleteWishlist(WishlistRequest("a@x.com", 42));
    assert r == Fail(NotFound(WishlistEntity));
  }
}
