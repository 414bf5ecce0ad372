/**
 * The user listing service: seeding users, products and orders, the
 * per-user order aggregation, and the filter / sort / paginate queries.
 *
 * Random draws (`Math.random()`) and creation timestamps are parameters;
 * prices and amounts are exact reals.
 */
module DataService {
  import opened Common
  import opened Text

  datatype User = User(id: nat, name: string, email: string, createdAt: int)
  datatype Product = Product(id: nat, name: string, price: real)
  datatype Order = Order(id: nat, userId: nat, productId: nat, amount: real, createdAt: int)

  /** One entry of the per-user aggregation map: order count and order total. */
  datatype OrderStats = OrderStats(count: nat, total: real)

  datatype Store = Store(
    users: seq<User>,
    products: seq<Product>,
    orders: seq<Order>,
    orderStats: map<nat, OrderStats>)

  /** The state a new service starts in, before anything is seeded. */
  const EmptyStore: Store := Store([], [], [], map[])

  datatype SeedCounts = SeedCounts(users: nat, orders: nat, products: nat)
  datatype Seeded = Seeded(store: Store, counts: SeedCounts)

  /** The random draws consumed by one generated order, plus its timestamp. */
  datatype OrderDraw = OrderDraw(user: real, product: real, amount: real, createdAt: int)

  datatype SortField = ByName | ByEmail | ByCreatedAt | ByOrderTotal
  datatype SortDir = Asc | Desc
  datatype UserQuery = UserQuery(page: nat, pageSize: nat, search: Option<string>, sortBy: SortField, sortDir: SortDir)
  datatype UserRow = UserRow(user: User, orderCount: nat, orderTotal: real)
  datatype UserResponse = UserResponse(items: seq<UserRow>, total: nat, page: nat, pageSize: nat)
  datatype OrderResponse = OrderResponse(items: seq<Order>, total: nat, page: nat, pageSize: nat)

  // ---------------------------------------------------------------------
  // Seeding
  // ---------------------------------------------------------------------

  predicate ValidOrderDraws(draws: seq<OrderDraw>)
  {
    forall i :: 0 <= i < |draws| ==>
      UnitDraw(draws[i].user) && UnitDraw(draws[i].product) && UnitDraw(draws[i].amount)
  }

  lemma ScaledFloorBound(r: real, n: nat)
    requires UnitDraw(r)
    ensures 0 <= (r * n as real).Floor
    ensures n >= 1 ==> (r * n as real).Floor < n
    ensures n == 0 ==> (r * n as real).Floor == 0
  {
    var x := r * n as real;
    assert 0.0 <= x;
    if n >= 1 {
      assert x < n as real by {
        assert n as real - x == (1.0 - r) * n as real;
      }
    }
  }

  /** A draw scaled by a positive factor stays below the factor. */
  lemma ScaleUnit(r: real, c: real)
    requires UnitDraw(r) && c > 0.0
    ensures 0.0 <= r * c < c
  {
    assert c - r * c == (1.0 - r) * c;
  }

  /** `Math.floor(Math.random() * n) + 1`: an id in 1..n (1 when n is 0). */
  function PickId(r: real, n: nat): (k: nat)
    requires UnitDraw(r)
    ensures 1 <= k <= Max(1, n)
  {
    ScaledFloorBound(r, n);
    (r * n as real).Floor + 1
  }

  function SeedProducts(n: nat, priceDraws: seq<real>): seq<Product>
    requires |priceDraws| == n
  {
    seq(n, i requires 0 <= i < n => Product(i + 1, "Product " + NatStr(i + 1), priceDraws[i] * 1000.0 + 10.0))
  }

  function SeedUsers(n: nat, createdAt: seq<int>): seq<User>
    requires |createdAt| == n
  {
    seq(n, i requires 0 <= i < n =>
      User(i + 1, "User " + NatStr(i + 1), "user" + NatStr(i + 1) + "@example.com", createdAt[i]))
  }

  function SeedOrders(n: nat, usersCount: nat, productsCount: nat, draws: seq<OrderDraw>): seq<Order>
    requires |draws| == n && ValidOrderDraws(draws)
  {
    seq(n, i requires 0 <= i < n =>
      Order(i + 1, PickId(draws[i].user, usersCount), PickId(draws[i].product, productsCount),
            draws[i].amount * 1000.0 + 1.0, draws[i].createdAt))
  }

  /** `seedData`: the store is rebuilt from the arguments alone. */
  function SeedData(usersCount: nat, ordersCount: nat, productsCount: nat,
                    priceDraws: seq<real>, userCreatedAt: seq<int>, orderDraws: seq<OrderDraw>): (r: Seeded)
    requires |priceDraws| == productsCount && forall i :: 0 <= i < productsCount ==> UnitDraw(priceDraws[i])
    requires |userCreatedAt| == usersCount
    requires |orderDraws| == ordersCount && ValidOrderDraws(orderDraws)
    ensures r.counts == SeedCounts(usersCount, ordersCount, productsCount)
    ensures r.counts == SeedCounts(|r.store.users|, |r.store.orders|, |r.store.products|)
    ensures forall i :: 0 <= i < usersCount ==>
      var u := r.store.users[i];
      u.id == i + 1 && u.name == "User " + NatStr(i + 1) && u.email == "user" + NatStr(i + 1) + "@example.com"
    ensures forall i :: 0 <= i < productsCount ==>
      var p := r.store.products[i];
      p.id == i + 1 && p.name == "Product " + NatStr(i + 1) && 10.0 <= p.price < 1010.0
    ensures forall i :: 0 <= i < ordersCount ==>
      var o := r.store.orders[i];
      && o.id == i + 1
      && 1 <= o.userId <= Max(1, usersCount)
      && 1 <= o.productId <= Max(1, productsCount)
      && 1.0 <= o.amount < 1001.0
    ensures StatsAgree(r.store)
  {
    var orders := SeedOrders(ordersCount, usersCount, productsCount, orderDraws);
    var products := SeedProducts(productsCount, priceDraws);
    assert forall i :: 0 <= i < productsCount ==> 10.0 <= products[i].price < 1010.0 by {
      forall i | 0 <= i < productsCount ensures 10.0 <= products[i].price < 1010.0 {
        assert products[i].price == priceDraws[i] * 1000.0 + 10.0;
        ScaleUnit(priceDraws[i], 1000.0);
      }
    }
    var store := Store(SeedUsers(usersCount, userCreatedAt),
                       products,
                       orders,
                       ComputeUserOrderAggregations(orders));
    AggregationsAgree(orders);
    Seeded(store, SeedCounts(|store.users|, |store.orders|, |store.products|))
  }

  /** `getProducts`: a copy of the stored products. */
  function GetProducts(store: Store): seq<Product>
  {
    store.products
  }

  /** After seeding, `getProducts` lists products 1..n in id order. */
  lemma SeededProducts(usersCount: nat, ordersCount: nat, productsCount: nat,
                       priceDraws: seq<real>, userCreatedAt: seq<int>, orderDraws: seq<OrderDraw>)
    requires |priceDraws| == productsCount && forall i :: 0 <= i < productsCount ==> UnitDraw(priceDraws[i])
    requires |userCreatedAt| == usersCount
    requires |orderDraws| == ordersCount && ValidOrderDraws(orderDraws)
    ensures var ps := GetProducts(SeedData(usersCount, ordersCount, productsCount, priceDraws, userCreatedAt, orderDraws).store);
      && |ps| == productsCount
      && forall i, j :: 0 <= i < j < |ps| ==> ps[i].id < ps[j].id
  {
  }

  // ---------------------------------------------------------------------
  // Per-user order aggregation
  // ---------------------------------------------------------------------

  /** The orders placed by user `u`, in stored order (`orders.filter(o => o.userId === u)`). */
  function OrdersOf(orders: seq<Order>, u: nat): (r: seq<Order>)
    ensures |r| <= |orders|
    ensures forall k :: 0 <= k < |r| ==> r[k].userId == u && r[k] in orders
    decreases |orders|
  {
    if |orders| == 0 then []
    else
      var n := |orders| - 1;
      OrdersOf(orders[..n], u) + (if orders[n].userId == u then [orders[n]] else [])
  }

  /** The filter keeps every order of user `u`, as often as it is stored, and nothing else. */
  lemma {:induction false} OrdersOfCounts(orders: seq<Order>, u: nat, o: Order)
    ensures multiset(OrdersOf(orders, u))[o] == if o.userId == u then multiset(orders)[o] else 0
    decreases |orders|
  {
    if |orders| > 0 {
      var n := |orders| - 1;
      assert orders == orders[..n] + [orders[n]];
      OrdersOfCounts(orders[..n], u, o);
    }
  }

  /** Filtering commutes with concatenation, so the filter keeps the stored order. */
  lemma {:induction false} OrdersOfAppend(a: seq<Order>, b: seq<Order>, u: nat)
    ensures OrdersOf(a + b, u) == OrdersOf(a, u) + OrdersOf(b, u)
    decreases |b|
  {
    if |b| > 0 {
      var n := |b| - 1;
      assert (a + b)[..|a| + n] == a + b[..n];
      assert (a + b)[|a| + n] == b[n];
      OrdersOfAppend(a, b[..n], u);
    } else {
      assert a + b == a;
    }
  }

  /** The sum of the order amounts. */
  function Total(orders: seq<Order>): real
    decreases |orders|
  {
    if |orders| == 0 then 0.0 else Total(orders[..|orders| - 1]) + orders[|orders| - 1].amount
  }

  /** `userOrderMap.get(u) || { count: 0, total: 0 }`. */
  function StatsOf(stats: map<nat, OrderStats>, u: nat): OrderStats
  {
    if u in stats then stats[u] else OrderStats(0, 0.0)
  }

  /** One pass of the aggregation loop: bump the entry of the order's user. */
  function Tally(stats: map<nat, OrderStats>, o: Order): map<nat, OrderStats>
  {
    var e := StatsOf(stats, o.userId);
    stats[o.userId := OrderStats(e.count + 1, e.total + o.amount)]
  }

  /** `computeUserOrderAggregations`: the loop over the orders, in order. */
  function ComputeUserOrderAggregations(orders: seq<Order>): map<nat, OrderStats>
    decreases |orders|
  {
    if |orders| == 0 then map[]
    else Tally(ComputeUserOrderAggregations(orders[..|orders| - 1]), orders[|orders| - 1])
  }

  /** The aggregation map agrees with the orders: count and sum per user. */
  ghost predicate StatsAgree(store: Store)
  {
    forall u: nat {:trigger StatsOf(store.orderStats, u)} ::
      StatsOf(store.orderStats, u) == OrderStats(|OrdersOf(store.orders, u)|, Total(OrdersOf(store.orders, u)))
  }

  /**
   * The aggregate of user `u` counts exactly the orders with that userId
   * and sums their amounts; a user without orders gets {0, 0}.
   */
  lemma {:induction false} AggregationIsPerUserSum(orders: seq<Order>, u: nat)
    ensures StatsOf(ComputeUserOrderAggregations(orders), u)
         == OrderStats(|OrdersOf(orders, u)|, Total(OrdersOf(orders, u)))
    decreases |orders|
  {
    if |orders| > 0 {
      var n := |orders| - 1;
      var o := orders[n];
      AggregationIsPerUserSum(orders[..n], u);
      var before := OrdersOf(orders[..n], u);
      if o.userId == u {
        var after := before + [o];
        assert OrdersOf(orders, u) == after;
        assert after[..|after| - 1] == before;
        assert Total(after) == Total(before) + o.amount;
        var m := ComputeUserOrderAggregations(orders[..n]);
        assert ComputeUserOrderAggregations(orders) == Tally(m, o);
      } else {
        assert OrdersOf(orders, u) == before + [] == before;
        var m := ComputeUserOrderAggregations(orders[..n]);
        assert ComputeUserOrderAggregations(orders) == Tally(m, o);
        assert StatsOf(Tally(m, o), u) == StatsOf(m, u);
      }
    }
  }

  lemma AggregationsAgree(orders: seq<Order>)
    ensures forall u: nat {:trigger StatsOf(ComputeUserOrderAggregations(orders), u)} ::
      StatsOf(ComputeUserOrderAggregations(orders), u) == OrderStats(|OrdersOf(orders, u)|, Total(OrdersOf(orders, u)))
  {
    forall u: nat {
      AggregationIsPerUserSum(orders, u);
    }
  }

  // ---------------------------------------------------------------------
  // Search filter
  // ---------------------------------------------------------------------

  /** The lower-cased name or e-mail contains `needle` (already lower-cased). */
  predicate UserMatches(u: User, needle: string)
  {
    Contains(Lower(u.name), needle) || Contains(Lower(u.email), needle)
  }

  /** The user passes the optional `search` of a query. */
  predicate MatchesSearch(u: User, search: Option<string>)
  {
    search.None? || UserMatches(u, Lower(search.value))
  }

  lemma ContainsEmpty(hay: string)
    ensures Contains(hay, "")
  {
    assert OccursAt(hay, "", 0);
  }

  function FilterUsers(users: seq<User>, needle: string): (r: seq<User>)
    ensures forall x :: multiset(r)[x] == if UserMatches(x, needle) then multiset(users)[x] else 0
    decreases |users|
  {
    if |users| == 0 then []
    else
      var n := |users| - 1;
      assert users == users[..n] + [users[n]];
      FilterUsers(users[..n], needle) + (if UserMatches(users[n], needle) then [users[n]] else [])
  }

  /**
   * The search step of `getUsers`: an absent or empty search keeps every
   * user; otherwise exactly the users whose lower-cased name or e-mail
   * contains the lower-cased search remain.
   */
  function SearchUsers(users: seq<User>, search: Option<string>): (r: seq<User>)
    ensures forall x :: multiset(r)[x] == if MatchesSearch(x, search) then multiset(users)[x] else 0
    ensures search.None? || search == Some("") ==> r == users
  {
    if search.None? || search.value == "" then
      assert search.Some? ==> forall x: User :: UserMatches(x, Lower(search.value)) by {
        if search.Some? {
          forall x: User ensures UserMatches(x, Lower(search.value)) {
            ContainsEmpty(Lower(x.name));
          }
        }
      }
      users
    else FilterUsers(users, Lower(search.value))
  }

  // ---------------------------------------------------------------------
  // Sorting
  // ---------------------------------------------------------------------

  /** The comparator's inputs: the key, the direction, and the aggregation map it reads. */
  datatype Sorting = Sorting(key: SortField, dir: SortDir, stats: map<nat, OrderStats>)

  /** `aValue < bValue` for the chosen key. */
  predicate KeyLess(a: User, b: User, key: SortField, stats: map<nat, OrderStats>)
  {
    match key
    case ByName => StrLt(a.name, b.name)
    case ByEmail => StrLt(a.email, b.email)
    case ByCreatedAt => a.createdAt < b.createdAt
    case ByOrderTotal => StatsOf(stats, a.id).total < StatsOf(stats, b.id).total
  }

  /** The comparator returns a negative number: `a` goes strictly before `b`. */
  predicate Ahead(a: User, b: User, s: Sorting)
  {
    if s.dir == Desc then KeyLess(b, a, s.key, s.stats) else KeyLess(a, b, s.key, s.stats)
  }

  lemma KeyLessAsymmetric(a: User, b: User, key: SortField, stats: map<nat, OrderStats>)
    requires KeyLess(a, b, key, stats)
    ensures !KeyLess(b, a, key, stats)
  {
    match key
    case ByName => StrLtAsymmetric(a.name, b.name);
    case ByEmail => StrLtAsymmetric(a.email, b.email);
    case ByCreatedAt =>
    case ByOrderTotal =>
  }

  lemma KeyLessTransitive(a: User, b: User, c: User, key: SortField, stats: map<nat, OrderStats>)
    requires KeyLess(a, b, key, stats) && KeyLess(b, c, key, stats)
    ensures KeyLess(a, c, key, stats)
  {
    match key
    case ByName => StrLtTransitive(a.name, b.name, c.name);
    case ByEmail => StrLtTransitive(a.email, b.email, c.email);
    case ByCreatedAt =>
    case ByOrderTotal =>
  }

  lemma AheadAsymmetric(a: User, b: User, s: Sorting)
    requires Ahead(a, b, s)
    ensures !Ahead(b, a, s)
  {
    if s.dir == Desc { KeyLessAsymmetric(b, a, s.key, s.stats); } else { KeyLessAsymmetric(a, b, s.key, s.stats); }
  }

  lemma AheadTransitive(a: User, b: User, c: User, s: Sorting)
    requires Ahead(a, b, s) && Ahead(b, c, s)
    ensures Ahead(a, c, s)
  {
    if s.dir == Desc { KeyLessTransitive(c, b, a, s.key, s.stats); } else { KeyLessTransitive(a, b, c, s.key, s.stats); }
  }

  /** No user is placed after one it should precede. */
  predicate SortedBy(users: seq<User>, s: Sorting)
  {
    forall i, j :: 0 <= i < j < |users| ==> !Ahead(users[j], users[i], s)
  }

  /** Inserts `x` before the first element it strictly precedes (so after any equal keys). */
  function Insert(x: User, sorted: seq<User>, s: Sorting): (r: seq<User>)
    ensures multiset(r) == multiset(sorted) + multiset{x}
    ensures SortedBy(sorted, s) ==> SortedBy(r, s)
    decreases |sorted|
  {
    if |sorted| == 0 then [x]
    else if Ahead(x, sorted[0], s) then
      assert SortedBy(sorted, s) ==> SortedBy([x] + sorted, s) by {
        if SortedBy(sorted, s) { InsertedFirst(x, sorted, s); }
      }
      [x] + sorted
    else
      var rest := Insert(x, sorted[1..], s);
      assert sorted == [sorted[0]] + sorted[1..];
      assert SortedBy(sorted, s) ==> SortedBy([sorted[0]] + rest, s) by {
        if SortedBy(sorted, s) { InsertedAfter(x, sorted, rest, s); }
      }
      [sorted[0]] + rest
  }

  /** An element strictly ahead of a sorted list's head can go in front. */
  lemma InsertedFirst(x: User, sorted: seq<User>, s: Sorting)
    requires |sorted| > 0 && SortedBy(sorted, s) && Ahead(x, sorted[0], s)
    ensures SortedBy([x] + sorted, s)
  {
    var r := [x] + sorted;
    assert r[1..] == sorted;
    forall j | 1 <= j < |r| ensures !Ahead(r[j], x, s) {
      if Ahead(r[j], x, s) {
        AheadTransitive(r[j], x, sorted[0], s);
        if j == 1 { AheadAsymmetric(r[j], sorted[0], s); }
      }
    }
  }

  /** A sorted list's head can stay in front of the insertion into its tail. */
  lemma InsertedAfter(x: User, sorted: seq<User>, rest: seq<User>, s: Sorting)
    requires |sorted| > 0 && SortedBy(sorted, s) && !Ahead(x, sorted[0], s)
    requires multiset(rest) == multiset(sorted[1..]) + multiset{x} && SortedBy(rest, s)
    ensures SortedBy([sorted[0]] + rest, s)
  {
    var r := [sorted[0]] + rest;
    assert r[1..] == rest;
    forall j | 1 <= j < |r| ensures !Ahead(r[j], sorted[0], s) {
      assert r[j] in multiset(rest);
      if r[j] != x {
        assert r[j] in sorted[1..];
      }
    }
  }

  /**
   * `filteredUsers.sort(comparator)`: a stable insertion sort, each user
   * inserted after the ones already placed with an equal key.
   */
  function SortUsers(users: seq<User>, s: Sorting): (r: seq<User>)
    ensures multiset(r) == multiset(users)
    ensures SortedBy(r, s)
    decreases |users|
  {
    if |users| == 0 then []
    else
      var n := |users| - 1;
      assert users == users[..n] + [users[n]];
      Insert(users[n], SortUsers(users[..n], s), s)
  }

  // ---------------------------------------------------------------------
  // Pagination
  // ---------------------------------------------------------------------

  /** Where `Array.prototype.slice` puts a (possibly negative) bound on a sequence of length n. */
  function SliceBound(k: int, n: nat): (b: nat)
    ensures b <= n
    ensures 0 <= k ==> b == Min(k, n)
    ensures k < 0 ==> b == Max(n + k, 0)
  {
    if k < 0 then Max(n + k, 0) else Min(k, n)
  }

  /** `s.slice(start, end)`. */
  function Slice<T>(s: seq<T>, start: int, end: int): (r: seq<T>)
    ensures 0 <= start <= end ==> |r| == Max(0, Min(end, |s|) - start)
    ensures 0 <= start ==> forall k :: 0 <= k < |r| ==> start + k < |s| && r[k] == s[start + k]
  {
    var from := SliceBound(start, |s|);
    var to := SliceBound(end, |s|);
    if from < to then s[from..to] else []
  }

  /**
   * Where page `page` (counted from 1) of size `pageSize` starts. Defined
   * by adding one page at a time, so that the solver never meets the
   * product; PageStartProduct shows it is `(page - 1) * pageSize`.
   */
  function PageStart(page: nat, pageSize: nat): (start: int)
    ensures page >= 1 ==> start >= 0
    ensures page == 0 ==> start == -(pageSize as int)
    decreases page
  {
    if page == 0 then -(pageSize as int)
    else if page == 1 then 0
    else PageStart(page - 1, pageSize) + pageSize
  }

  lemma {:induction false} PageStartProduct(page: nat, pageSize: nat)
    ensures PageStart(page, pageSize) == (page - 1) * pageSize
    decreases page
  {
    if page > 1 {
      PageStartProduct(page - 1, pageSize);
      assert (page - 1) * pageSize == (page - 2) * pageSize + pageSize;
    }
  }

  /** Items of page `page` (counted from 1) of size `pageSize`. */
  function Page<T>(s: seq<T>, page: nat, pageSize: nat): (r: seq<T>)
    ensures page >= 1 ==> |r| == Min(pageSize, Max(0, |s| - PageStart(page, pageSize)))
    ensures page >= 1 ==> forall k :: 0 <= k < |r| ==>
      PageStart(page, pageSize) + k < |s| && r[k] == s[PageStart(page, pageSize) + k]
    ensures page == 0 ==> r == []
  {
    var start := PageStart(page, pageSize);
    if page == 0 then
      Slice(s, start, start + pageSize)
    else
      SliceWindow(s, start, pageSize);
      Slice(s, start, start + pageSize)
  }

  /** A window of `size` items from `start` on, cut short at the end of the sequence. */
  lemma SliceWindow<T>(s: seq<T>, start: nat, size: nat)
    ensures var r := Slice(s, start, start + size);
      |r| == Min(size, Max(0, |s| - start))
      && forall k :: 0 <= k < |r| ==> start + k < |s| && r[k] == s[start + k]
  {
  }

  /** Every item of a page is an element of the paged sequence. */
  lemma PageElements<T>(s: seq<T>, page: nat, pageSize: nat)
    ensures forall k :: 0 <= k < |Page(s, page, pageSize)| ==> Page(s, page, pageSize)[k] in s
  {
    var r := Page(s, page, pageSize);
    if page >= 1 {
      forall k | 0 <= k < |r| ensures r[k] in s {
        var i := PageStart(page, pageSize) + k;
        assert r[k] == s[i];
      }
    }
  }

  // ---------------------------------------------------------------------
  // Queries
  // ---------------------------------------------------------------------

  function ToRow(u: User, stats: map<nat, OrderStats>): UserRow
  {
    var st := StatsOf(stats, u.id);
    UserRow(u, st.count, st.total)
  }

  /** The sorted, filtered list `getUsers` pages through. */
  function ListedUsers(store: Store, q: UserQuery): seq<User>
  {
    SortUsers(SearchUsers(store.users, q.search), Sorting(q.sortBy, q.sortDir, store.orderStats))
  }

  /** A page of a sorted sequence is sorted. */
  lemma SortedPage(s: seq<User>, srt: Sorting, page: nat, pageSize: nat)
    requires SortedBy(s, srt)
    ensures SortedBy(Page(s, page, pageSize), srt)
  {
    var r := Page(s, page, pageSize);
    if page >= 1 {
      var start := PageStart(page, pageSize);
      forall i, j | 0 <= i < j < |r| ensures !Ahead(r[j], r[i], srt) {
        assert r[i] == s[start + i] && r[j] == s[start + j];
      }
    }
  }

  /** What the page of the listing inherits from the filter and the sort. */
  lemma ListingPage(store: Store, q: UserQuery)
    ensures |ListedUsers(store, q)| == |SearchUsers(store.users, q.search)|
    ensures var page := Page(ListedUsers(store, q), q.page, q.pageSize);
      && (forall k :: 0 <= k < |page| ==> page[k] in store.users && MatchesSearch(page[k], q.search))
      && (forall i, j :: 0 <= i < j < |page| ==>
            !Ahead(page[j], page[i], Sorting(q.sortBy, q.sortDir, store.orderStats)))
  {
    var filtered := SearchUsers(store.users, q.search);
    var sorted := ListedUsers(store, q);
    var page := Page(sorted, q.page, q.pageSize);
    assert |sorted| == |multiset(sorted)| == |multiset(filtered)| == |filtered|;
    PageElements(sorted, q.page, q.pageSize);
    forall k | 0 <= k < |page| ensures page[k] in store.users && MatchesSearch(page[k], q.search) {
      assert page[k] in multiset(sorted);
      assert multiset(filtered)[page[k]] > 0;
    }
    SortedPage(sorted, Sorting(q.sortBy, q.sortDir, store.orderStats), q.page, q.pageSize);
  }

  /** The rows of a page: each user with its aggregate attached (`paginatedUsers.map(...)`). */
  function ToRows(users: seq<User>, stats: map<nat, OrderStats>): (rows: seq<UserRow>)
    ensures |rows| == |users|
    ensures forall k :: 0 <= k < |rows| ==> rows[k] == ToRow(users[k], stats)
  {
    seq(|users|, k requires 0 <= k < |users| => ToRow(users[k], stats))
  }

  /** The users behind a sequence of rows. */
  function RowUsers(rows: seq<UserRow>): (users: seq<User>)
    ensures |users| == |rows|
    ensures forall k :: 0 <= k < |rows| ==> users[k] == rows[k].user
  {
    seq(|rows|, k requires 0 <= k < |rows| => rows[k].user)
  }

  /** `getUsers`: filter by search, sort by key and direction, slice one page, attach aggregates. */
  function GetUsers(store: Store, q: UserQuery): (r: UserResponse)
    ensures r.page == q.page && r.pageSize == q.pageSize
    ensures r.total == |SearchUsers(store.users, q.search)|
    ensures q.page >= 1 ==> |r.items| == Min(q.pageSize, Max(0, r.total - PageStart(q.page, q.pageSize)))
    ensures RowUsers(r.items) == Page(ListedUsers(store, q), q.page, q.pageSize)
    ensures forall k :: 0 <= k < |r.items| ==>
      r.items[k].user in store.users && MatchesSearch(r.items[k].user, q.search)
    ensures SortedBy(RowUsers(r.items), Sorting(q.sortBy, q.sortDir, store.orderStats))
    ensures forall k :: 0 <= k < |r.items| ==>
      var st := StatsOf(store.orderStats, r.items[k].user.id);
      r.items[k].orderCount == st.count && r.items[k].orderTotal == st.total
  {
    var page := Page(ListedUsers(store, q), q.page, q.pageSize);
    ListingPage(store, q);
    var rows := ToRows(page, store.orderStats);
    assert RowUsers(rows) == page;
    UserResponse(rows, |SearchUsers(store.users, q.search)|, q.page, q.pageSize)
  }

  /** `getUserOrders`: the user's orders in stored order, one page of them. */
  function GetUserOrders(store: Store, userId: nat, page: nat, pageSize: nat): (r: OrderResponse)
    ensures r.page == page && r.pageSize == pageSize
    ensures r.total == |OrdersOf(store.orders, userId)|
    ensures page >= 1 ==> |r.items| == Min(pageSize, Max(0, r.total - PageStart(page, pageSize)))
    ensures r.items == Page(OrdersOf(store.orders, userId), page, pageSize)
    ensures forall k :: 0 <= k < |r.items| ==> r.items[k].userId == userId && r.items[k] in store.orders
  {
    var mine := OrdersOf(store.orders, userId);
    var items := Page(mine, page, pageSize);
    PageElements(mine, page, pageSize);
    OrderResponse(items, |mine|, page, pageSize)
  }

  /** The listing's total agrees with the precomputed aggregate count for that user. */
  lemma UserOrdersMatchAggregate(store: Store, userId: nat, page: nat, pageSize: nat)
    requires StatsAgree(store)
    ensures GetUserOrders(store, userId, page, pageSize).total == StatsOf(store.orderStats, userId).count
  {
    assert StatsOf(store.orderStats, userId) == OrderStats(|OrdersOf(store.orders, userId)|, Total(OrdersOf(store.orders, userId)));
  }
}
