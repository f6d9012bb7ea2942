/** `get_user_for_name` and `get_player_for_name`: a list of shared objects and an index over it. */
module UserRegistry {

  class User {
    var userName: string

    constructor (name: string)
      ensures userName == name
    {
      userName := name;
    }
  }

  ghost predicate Indexed(user: User, index: map<string, User>) {
    exists k :: k in index && index[k] == user
  }

  /** List and index hold the same objects, each once and under one key. */
  ghost predicate InStep(list: seq<User>, index: map<string, User>) {
    && |list| == |index|
    && (forall i, j :: 0 <= i < j < |list| ==> list[i] != list[j])
    && (forall k <- index.Keys :: index[k] in list)
    && (forall u <- list :: Indexed(u, index))
    && (forall j, k :: j in index && k in index && j != k ==> index[j] != index[k])
  }

  lemma StaysIndexed(index: map<string, User>, key: string, user: User, u: User)
    requires key !in index && (u == user || Indexed(u, index))
    ensures Indexed(u, index[key := user])
  {
    var k := if u == user then key else var k :| k in index && index[k] == u; k;
    assert index[key := user][k] == u;
  }

  /** A new object under a new key keeps list and index in step. */
  lemma GrowsInStep(list: seq<User>, index: map<string, User>, key: string, user: User)
    requires InStep(list, index) && key !in index && user !in list
    ensures InStep(list + [user], index[key := user])
  {
    hide Indexed;
    var list', index' := list + [user], index[key := user];
    assert index'.Keys == index.Keys + {key};
    forall u | u in list' ensures Indexed(u, index') {
      StaysIndexed(index, key, user, u);
    }
    forall j, k | j in index' && k in index' && j != k ensures index'[j] != index'[k] {
      assert j != key ==> index[j] in list;
      assert k != key ==> index[k] in list;
    }
  }

  /** No key is dropped or given another object. */
  ghost predicate Extends(before: map<string, User>, after: map<string, User>) {
    forall k <- before.Keys :: k in after && after[k] == before[k]
  }

  /** One lookup of either kind. */
  datatype Request = UserFor(name: string) | PlayerFor(name: string, ipAddress: string)

  /** Behind a last underscore the address can be told from the name. */
  lemma LastUnderscoreSplits(name: string, address: string, name': string, address': string)
    requires '_' !in address && '_' !in address'
    ensures name + "_" + address == name' + "_" + address' <==> name == name' && address == address'
  {
    var key, key' := name + "_" + address, name' + "_" + address';
    assert key[|name|] == '_' && forall i :: |name| < i < |key| ==> key[i] == address[i - |name| - 1];
    assert key'[|name'|] == '_' && forall i :: |name'| < i < |key'| ==> key'[i] == address'[i - |name'| - 1];
    if key == key' {
      assert |name| == |name'|;
      assert name == key[..|name|] == key'[..|name'|] == name';
      assert address == key[|name| + 1..] == key'[|name'| + 1..] == address';
    }
  }

  class Registry {
    var users: seq<User>
    var nameToUser: map<string, User>
    var players: seq<User>
    var playerToUser: map<string, User>

    /** `get_cleaned_user_name` and the answer of `check_ip_address_validity`. */
    const clean: string -> string
    const isValidAddress: string -> bool

    ghost predicate Valid()
      reads this
    {
      && InStep(users, nameToUser)
      && InStep(players, playerToUser)
      && forall u <- users :: u !in players
    }

    function PlayerKey(name: string, ipAddress: string): string {
      if isValidAddress(ipAddress) then clean(name) + "_" + ipAddress else clean(name)
    }

    /** Exactly when two player lookups share an object: besides the same cleaned name with the same valid address or
        with no valid address, a cleaned name that ends in an underscore and an address takes the place of the
        shorter name at that address. */
    lemma PlayerKeysEqualIff(name: string, address: string, name': string, address': string)
      requires isValidAddress(address) ==> '_' !in address
      requires isValidAddress(address') ==> '_' !in address'
      ensures PlayerKey(name, address) == PlayerKey(name', address') <==>
              match (isValidAddress(address), isValidAddress(address'))
              case (true, true) => clean(name) == clean(name') && address == address'
              case (true, false) => clean(name') == clean(name) + "_" + address
              case (false, true) => clean(name) == clean(name') + "_" + address'
              case (false, false) => clean(name) == clean(name')
    {
      if isValidAddress(address) && isValidAddress(address') {
        LastUnderscoreSplits(clean(name), address, clean(name'), address');
      }
    }

    /** The collision by name: without a valid address "bob_1.2.3.4" is looked up as "bob" at 1.2.3.4. */
    lemma PlayersCollide()
      requires clean("bob") == "bob" && clean("bob_1.2.3.4") == "bob_1.2.3.4"
      requires isValidAddress("1.2.3.4") && !isValidAddress("")
      ensures PlayerKey("bob_1.2.3.4", "") == PlayerKey("bob", "1.2.3.4")
    {
      PlayerKeysEqualIff("bob_1.2.3.4", "", "bob", "1.2.3.4");
    }

    constructor (clean: string -> string, isValidAddress: string -> bool)
      ensures Valid() && users == [] && players == []
      ensures this.clean == clean && this.isValidAddress == isValidAddress
    {
      this.clean := clean;
      this.isValidAddress := isValidAddress;
      users, nameToUser := [], map[];
      players, playerToUser := [], map[];
    }

    method GetUserForName(name: string) returns (user: User)
      requires Valid()
      modifies this`users, this`nameToUser
      ensures Valid()
      ensures clean(name) in nameToUser && user == nameToUser[clean(name)]
      ensures clean(name) in old(nameToUser) ==> users == old(users) && nameToUser == old(nameToUser)
      ensures clean(name) !in old(nameToUser) ==>
                && fresh(user) && user.userName == name
                && users == old(users) + [user] && nameToUser == old(nameToUser)[clean(name) := user]
    {
      hide InStep;
      var key := clean(name);
      if key !in nameToUser {
        user := new User(name);
        GrowsInStep(users, nameToUser, key, user);
        users := users + [user];
        nameToUser := nameToUser[key := user];
      }
      user := nameToUser[key];
    }

    method GetPlayerForName(name: string, ipAddress: string) returns (user: User)
      requires Valid()
      modifies this`players, this`playerToUser
      ensures Valid()
      ensures PlayerKey(name, ipAddress) in playerToUser && user == playerToUser[PlayerKey(name, ipAddress)]
      ensures PlayerKey(name, ipAddress) in old(playerToUser) ==>
                players == old(players) && playerToUser == old(playerToUser)
      ensures PlayerKey(name, ipAddress) !in old(playerToUser) ==>
                && fresh(user) && user.userName == name
                && players == old(players) + [user]
                && playerToUser == old(playerToUser)[PlayerKey(name, ipAddress) := user]
      ensures var key := if isValidAddress(ipAddress) then clean(name) + "_" + ipAddress else clean(name);
              key in playerToUser && user == playerToUser[key]
    {
      hide InStep;
      var key := clean(name);
      if isValidAddress(ipAddress) {
        key := key + "_" + ipAddress;
      }
      assert key == PlayerKey(name, ipAddress);
      if key !in playerToUser {
        user := new User(name);
        GrowsInStep(players, playerToUser, key, user);
        players := players + [user];
        playerToUser := playerToUser[key := user];
      }
      user := playerToUser[key];
    }

    // ----- Whole runs -----

    function KeyOf(request: Request): string {
      match request
      case UserFor(name) => clean(name)
      case PlayerFor(name, ipAddress) => PlayerKey(name, ipAddress)
    }

    /** The same kind of lookup under the same key. */
    predicate SameTarget(a: Request, b: Request) {
      a.UserFor? == b.UserFor? && KeyOf(a) == KeyOf(b)
    }

    /** A player looked up with a valid address, which holds no underscore. */
    predicate PlainPlayer(request: Request) {
      request.PlayerFor? && isValidAddress(request.ipAddress) && '_' !in request.ipAddress
    }

    /** The index that serves a request. */
    ghost function IndexFor(request: Request): map<string, User>
      reads this
    {
      if request.UserFor? then nameToUser else playerToUser
    }

    ghost predicate RegisteredAs(request: Request, user: User)
      reads this
    {
      KeyOf(request) in IndexFor(request) && IndexFor(request)[KeyOf(request)] == user
    }

    method ServeOne(request: Request) returns (user: User)
      requires Valid()
      modifies this`users, this`nameToUser, this`players, this`playerToUser
      ensures Valid() && old(users) <= users && old(players) <= players
      ensures RegisteredAs(request, user)
      ensures Extends(old(nameToUser), nameToUser) && Extends(old(playerToUser), playerToUser)
    {
      hide InStep;
      match request {
        case UserFor(name) => user := GetUserForName(name);
        case PlayerFor(name, ipAddress) => user := GetPlayerForName(name, ipAddress);
      }
    }

    /** Any run of lookups keeps the registry in step, drops nobody, and gives two requests the same object exactly
        when they are of the same kind and their keys are equal. */
    method Serve(requests: seq<Request>) returns (found: seq<User>)
      requires Valid()
      modifies this`users, this`nameToUser, this`players, this`playerToUser
      ensures Valid() && old(users) <= users && old(players) <= players
      ensures |found| == |requests|
      ensures forall i, j :: 0 <= i < |found| && 0 <= j < |found| ==>
                (found[i] == found[j] <==> SameTarget(requests[i], requests[j]))
      ensures forall i, j :: 0 <= i < |found| && 0 <= j < |found| && requests[i].UserFor? ==>
                (found[i] == found[j] <==> requests[j].UserFor? && clean(requests[i].name) == clean(requests[j].name))
      ensures forall i, j :: 0 <= i < |found| && 0 <= j < |found| && PlainPlayer(requests[i])
                              && PlainPlayer(requests[j]) ==>
                    (found[i] == found[j] <==>
                      && clean(requests[i].name) == clean(requests[j].name)
                      && requests[i].ipAddress == requests[j].ipAddress)
    {
      hide InStep;
      found := [];
      for n := 0 to |requests|
        invariant Valid() && old(users) <= users && old(players) <= players
        invariant |found| == n
        invariant forall i :: 0 <= i < n ==> RegisteredAs(requests[i], found[i])
      {
        var user := ServeOne(requests[n]);
        found := found + [user];
      }
      forall i, j | 0 <= i < |found| && 0 <= j < |found|
        ensures found[i] == found[j] <==> SameTarget(requests[i], requests[j])
      {
        SameObjectIff(requests[i], found[i], requests[j], found[j]);
      }
      forall i, j | 0 <= i < |found| && 0 <= j < |found| && PlainPlayer(requests[i]) && PlainPlayer(requests[j])
        ensures SameTarget(requests[i], requests[j]) <==>
                clean(requests[i].name) == clean(requests[j].name) && requests[i].ipAddress == requests[j].ipAddress
      {
        PlayerKeysEqualIff(requests[i].name, requests[i].ipAddress, requests[j].name, requests[j].ipAddress);
      }
    }

    lemma SameObjectIff(a: Request, first: User, b: Request, second: User)
      requires Valid() && RegisteredAs(a, first) && RegisteredAs(b, second)
      ensures first == second <==> SameTarget(a, b)
    {
      if a.UserFor? != b.UserFor? {
        assert first in (if a.UserFor? then users else players);
        assert second in (if b.UserFor? then users else players);
      }
    }
  }
}
