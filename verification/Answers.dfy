/** What the server answers, in terms of the bytes of the request: its method's name, the layout of its body,
    and the keys and values of the store. */
module Answers {
  import opened Options
  import opened Bytes
  import opened Stores
  import opened WriteRequests
  import opened Framing
  import opened Servers

  /** The name field holds this C string. */
  ghost predicate Spells(name: Name, s: string) {
    |s| < 8 && (forall i :: 0 <= i < |s| ==> name[i] as int == s[i] as int) && name[|s|] == 0
  }

  lemma CommandSpelt(name: Name)
    ensures CommandOf(name) == Ping <==> Spells(name, "ping")
    ensures CommandOf(name) == Write <==> Spells(name, "write")
    ensures CommandOf(name) == Read <==> Spells(name, "read")
    ensures CommandOf(name) == Quit <==> Spells(name, "quit")
  {
    hide CommandOf;
    CommandNames(name);
    StartsIff(name, PING, "ping");
    StartsIff(name, WRITE, "write");
    StartsIff(name, READ, "read");
    StartsIff(name, QUIT, "quit");
  }

  lemma StartsIff(name: Name, bytes: seq<byte>, s: string)
    requires |s| < 8 && |bytes| == |s| + 1 && bytes[|s|] == 0
    requires forall i :: 0 <= i < |s| ==> bytes[i] as int == s[i] as int
    ensures bytes <= name <==> Spells(name, s)
  {
    if Spells(name, s) {
      forall i | 0 <= i < |bytes| ensures bytes[i] == name[i] {}
    }
    if bytes <= name {
      forall i | 0 <= i < |bytes| ensures name[i] == bytes[i] {}
    }
  }

  /** A write's body holds a key and a value of the lengths that it says. */
  ghost predicate WellFormed(body: seq<byte>) {
    |body| >= 8 && 8 + SaidLengths(body) == |body|
  }

  function KeyIn(body: seq<byte>): (key: seq<byte>)
    requires |body| >= 8 && 8 + body[0] as nat <= |body|
  {
    body[8..8 + body[0] as nat]
  }

  function ValueIn(body: seq<byte>): (value: seq<byte>)
    requires |body| >= 8 && 8 + body[0] as nat <= |body|
  {
    body[8 + body[0] as nat..]
  }

  /** The bodies that clients make are well-formed, and hold the key and the value they are made of. */
  lemma LayoutHolds(w: Binding, padding: seq<byte>)
    requires |w.key| < 256 && |w.value| < 0x1_0000_0000 && |padding| == 3
    ensures var body := Layout(w, padding);
            WellFormed(body) && KeyIn(body) == w.key && ValueIn(body) == w.value
  {
    hide Layout;
    LayoutBytes(w, padding);
    Digits(|w.value|);
  }

  lemma Digits(n: nat)
    requires n < 0x1_0000_0000
    ensures n == 0x100_0000 * (n / 0x100_0000) + 0x1_0000 * (n / 0x1_0000 % 256) + 0x100 * (n / 0x100 % 256) + n % 256
  {
    var a, b, c := n / 0x100, n / 0x1_0000, n / 0x100_0000;
    assert b == a / 256 && c == b / 256;
  }

  lemma WriteOfIs(body: seq<byte>)
    ensures WriteOf(body) == if WellFormed(body) then Some(Binding(KeyIn(body), ValueIn(body))) else None
  {
    FromBodyBytes(body, seq(HEADER, _ => 0));
  }

  /** The operation a request asks for: a well-formed write and a read have one, and nothing else. */
  lemma OperationIs(m: Message)
    ensures Spells(m.header.name, "write") && WellFormed(m.body) ==>
              OpOf(m) == Some(Emplace(KeyIn(m.body), ValueIn(m.body)))
    ensures Spells(m.header.name, "read") ==> OpOf(m) == Some(Find(m.body))
    ensures !(Spells(m.header.name, "write") && WellFormed(m.body)) && !Spells(m.header.name, "read") ==>
              OpOf(m) == None
  {
    hide CommandOf, Spells, WriteOf, WellFormed;
    CommandSpelt(m.header.name);
    WriteOfIs(m.body);
  }

  /** A read is answered with the value of its key and status 0, or with nothing and status 2. */
  lemma ReadAnswered(store: Store, m: Message, env: Env, tick: nat)
    requires Spells(m.header.name, "read")
    ensures var r := Respond(store, m, env, tick);
            && r.body == (if m.body in store then store[m.body] else [])
            && r.header.status == (if m.body in store then 0 else 2)
    ensures StoreAfter(store, m) == store
  {
    hide CommandOf, Spells;
    CommandSpelt(m.header.name);
  }

  /** A write binds its key to its value unless the key is bound, and is answered with status 0; one whose
      lengths do not add up changes nothing and is answered with status 1. */
  lemma WriteAnswered(store: Store, m: Message, env: Env, tick: nat)
    requires Spells(m.header.name, "write")
    ensures var r := Respond(store, m, env, tick);
            r.body == [] && r.header.status == if WellFormed(m.body) then 0 else 1
    ensures StoreAfter(store, m) ==
            if WellFormed(m.body) && KeyIn(m.body) !in store
            then store[KeyIn(m.body) := ValueIn(m.body)] else store
  {
    hide CommandOf, Spells, WriteOf, WellFormed;
    CommandSpelt(m.header.name);
    WriteOfIs(m.body);
  }

  /** A ping is answered with its own body, a quit with nothing, both with status 0 and without an effect. */
  lemma OthersAnswered(store: Store, m: Message, env: Env, tick: nat)
    requires Spells(m.header.name, "ping") || Spells(m.header.name, "quit")
    ensures var r := Respond(store, m, env, tick);
            r.body == (if Spells(m.header.name, "ping") then m.body else []) && r.header.status == 0
    ensures StoreAfter(store, m) == store
  {
    hide CommandOf, Spells;
    CommandSpelt(m.header.name);
  }

  ghost predicate Writes(m: Message, key: seq<byte>) {
    Spells(m.header.name, "write") && WellFormed(m.body) && KeyIn(m.body) == key
  }

  lemma StoreKept(store: Store, m: Message, key: seq<byte>)
    ensures key in store ==> key in StoreAfter(store, m) && StoreAfter(store, m)[key] == store[key]
    ensures key !in store && !Writes(m, key) ==> key !in StoreAfter(store, m)
    ensures key !in store && Writes(m, key) ==>
              key in StoreAfter(store, m) && StoreAfter(store, m)[key] == ValueIn(m.body)
  {
    hide OpOf, Spells, WellFormed;
    OperationIs(m);
  }

  /** None of these requests writes this key; request `i` is the first that does. */
  ghost predicate NoneWrites(ms: seq<Message>, key: seq<byte>) {
    forall i :: 0 <= i < |ms| ==> !Writes(ms[i], key)
  }

  ghost predicate FirstToWrite(ms: seq<Message>, key: seq<byte>, i: nat) {
    i < |ms| && Writes(ms[i], key) && NoneWrites(ms[..i], key)
  }

  lemma {:induction false} Unbound(ms: seq<Message>, key: seq<byte>)
    requires NoneWrites(ms, key)
    ensures key !in StoreAfterAll(map[], ms)
  {
    hide StoreAfter, Writes;
    if |ms| > 0 {
      var last := |ms| - 1;
      Unbound(ms[..last], key);
      StoreAfterOne(map[], ms[..last], ms[last]);
      assert ms[..last] + [ms[last]] == ms;
      StoreKept(StoreAfterAll(map[], ms[..last]), ms[last], key);
    }
  }

  lemma {:induction false} BoundToFirst(ms: seq<Message>, key: seq<byte>, i: nat)
    requires FirstToWrite(ms, key, i)
    ensures key in StoreAfterAll(map[], ms) && StoreAfterAll(map[], ms)[key] == ValueIn(ms[i].body)
  {
    hide StoreAfter, Spells, NoneWrites;
    var last := |ms| - 1;
    StoreAfterOne(map[], ms[..last], ms[last]);
    assert ms[..last] + [ms[last]] == ms;
    StoreKept(StoreAfterAll(map[], ms[..last]), ms[last], key);
    if i < last {
      assert ms[..last][..i] == ms[..i];
      BoundToFirst(ms[..last], key, i);
    } else {
      Unbound(ms[..last], key);
    }
  }

  /** End to end, on a server that started empty: a read is answered with the value of the first write of its
      key among the requests before it, or with status 2 if there is none. */
  lemma ReadsFirstWrite(ms: seq<Message>, env: Env, tick: nat, j: nat)
    requires j < |ms| && Spells(ms[j].header.name, "read")
    ensures var r, key := RespondAll(map[], ms, env, tick)[j], ms[j].body;
            && (NoneWrites(ms[..j], key) ==> r.body == [] && r.header.status == 2)
            && (forall i: nat :: FirstToWrite(ms[..j], key, i) ==>
                  r.body == ValueIn(ms[i].body) && r.header.status == 0)
  {
    hide Respond, RespondAll, StoreAfterAll, StoreAfter, Spells, NoneWrites;
    var key := ms[j].body;
    ResponseAt(ms, map[], env, tick, j);
    ReadAnswered(StoreAfterAll(map[], ms[..j]), ms[j], env, tick + 2 * j);
    if NoneWrites(ms[..j], key) {
      Unbound(ms[..j], key);
    }
    forall i: nat | FirstToWrite(ms[..j], key, i)
      ensures key in StoreAfterAll(map[], ms[..j]) && StoreAfterAll(map[], ms[..j])[key] == ValueIn(ms[..j][i].body) {
      BoundToFirst(ms[..j], key, i);
    }
  }
}
