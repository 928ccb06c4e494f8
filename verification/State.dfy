/** The objects the interpreter updates in place: operand stack, accounts, the world and contexts. */
module State {
  import opened Words
  import opened Bytecode
  import opened Evm

  // ----- src/stack.cpp -----

  class Stack {
    var st: seq<Word>

    constructor ()
      ensures st == []
    {
      st := [];
    }

    method Pop() returns (r: Exc<Word>)
      modifies this
      ensures old(st) == [] ==> r == Throw(OutOfBounds) && st == []
      ensures old(st) != [] ==> r == Ok(old(st)[0]) && st == old(st)[1..]
    {
      if st == [] {
        return Throw(OutOfBounds);
      }
      var val := st[0];
      st := st[1..];
      return Ok(val);
    }

    /** A value that does not fit is popped all the same. */
    method Pop64() returns (r: Exc<U64>)
      modifies this
      ensures old(st) == [] ==> r == Throw(OutOfBounds) && st == []
      ensures old(st) != [] ==> st == old(st)[1..]
      ensures old(st) != [] ==> r == if old(st)[0] < TWO64 then Ok(old(st)[0]) else Throw(OutOfBounds)
    {
      var val :- Pop();
      if val > TWO64 - 1 {
        return Throw(OutOfBounds);
      }
      return Ok(val);
    }

    /** Refuses at exactly the maximal size. */
    method Push(val: Word) returns (r: Exc<()>)
      modifies this
      ensures |old(st)| == MAX_STACK ==> r == Throw(OutOfBounds) && st == old(st)
      ensures |old(st)| != MAX_STACK ==> r == Ok(()) && st == [val] + old(st)
    {
      if |st| == MAX_STACK {
        return Throw(OutOfBounds);
      }
      st := [val] + st;
      return Ok(());
    }

    method Swap(i: nat) returns (r: Exc<()>)
      modifies this
      ensures i >= |old(st)| ==> r == Throw(OutOfBounds) && st == old(st)
      ensures i < |old(st)| ==> r == Ok(()) && |st| == |old(st)| && st[0] == old(st)[i] && st[i] == old(st)[0]
      ensures i < |old(st)| ==> forall k :: 0 < k < |st| && k != i ==> st[k] == old(st)[k]
    {
      if i >= |st| {
        return Throw(OutOfBounds);
      }
      st := st[0 := st[i]][i := st[0]];
      return Ok(());
    }

    /** Has no size check. */
    method Dup(a: nat) returns (r: Exc<()>)
      modifies this
      ensures a >= |old(st)| ==> r == Throw(OutOfBounds) && st == old(st)
      ensures a < |old(st)| ==> r == Ok(()) && st == [old(st)[a]] + old(st)
    {
      if a >= |st| {
        return Throw(OutOfBounds);
      }
      st := [st[a]] + st;
      return Ok(());
    }
  }

  // ----- include/eEVM/account.h, src/simple/simpleaccount.cpp -----

  class SimpleAccount {
    const address: Word
    var balance: Word
    var code: Vector
    var nonce: nat
    var storage: map<Word, Word>

    constructor (address: Word, balance: Word, code: Vector)
      ensures this.address == address && Value() == Account(balance, code, 0, map[])
    {
      this.address, this.balance, this.code, this.nonce, this.storage := address, balance, code, 0, map[];
    }

    ghost function Value(): Account
      reads this
    {
      Account(balance, code, nonce, storage)
    }

    /** Moves the amount, or throws and changes nothing. Both balances are read before either is
        written, so an account that pays itself gains the amount. */
    method PayTo(other: SimpleAccount, amount: Word) returns (r: Exc<()>)
      modifies this`balance, other`balance
      ensures r == if amount > old(balance) then Throw(OutOfFunds)
                   else if old(other.balance) + amount >= TWO256 then Throw(OverflowError) else Ok(())
      ensures r.Throw? ==> Value() == old(Value()) && other.Value() == old(other.Value())
      ensures r.Ok? ==> other.Value() == old(other.Value()).(balance := old(other.balance) + amount)
      ensures r.Ok? && other != this ==> Value() == old(Value()).(balance := old(balance) - amount)
    {
      var thisBalance := balance;
      if amount > thisBalance {
        return Throw(OutOfFunds);
      }
      var otherBalance := other.balance;
      var proposedBalance: Word := (otherBalance + amount) % TWO256;
      if proposedBalance < otherBalance {
        return Throw(OverflowError);
      }
      balance := thisBalance - amount;
      other.balance := proposedBalance;
      return Ok(());
    }
  }

  // ----- src/simple/simpleglobalstate.cpp -----

  class SimpleGlobalState {
    var accounts: map<Word, SimpleAccount>

    ghost predicate Valid()
      reads this
    {
      forall a :: a in accounts ==> accounts[a].address == a
    }

    ghost function Objects(): (r: set<object>)
      reads this
      ensures forall o :: o in r ==> o is SimpleAccount
    {
      set a | a in accounts :: accounts[a]
    }

    ghost function View(): (r: map<Word, Account>)
      reads this, Objects()
      ensures r.Keys == accounts.Keys
    {
      map a | a in accounts :: accounts[a].Value()
    }

    constructor ()
      ensures Valid() && View() == map[]
    {
      accounts := map[];
    }

    method Remove(addr: Word)
      requires Valid()
      modifies this
      ensures Valid() && accounts == old(accounts) - {addr} && View() == old(View()) - {addr}
    {
      accounts := accounts - {addr};
    }

    /** `std::map::insert`: an account that is already there stays. The result is what the code asserts. */
    method Insert(p: SimpleAccount) returns (inserted: bool)
      requires Valid()
      modifies this
      ensures Valid()
      ensures inserted <==> p.address !in old(accounts)
      ensures accounts == if p.address in old(accounts) then old(accounts) else old(accounts)[p.address := p]
      ensures View() == if p.address in old(accounts) then old(View()) else old(View())[p.address := p.Value()]
    {
      inserted := p.address !in accounts;
      if inserted {
        accounts := accounts[p.address := p];
      }
    }

    /** The account at an address; an unknown address gets an empty account first. */
    method Get(addr: Word) returns (acc: SimpleAccount)
      requires Valid()
      modifies this
      ensures Valid() && Finds(addr, acc) && Keeps(old(accounts))
      ensures old(accounts.Keys) + {addr} == accounts.Keys
      ensures View() == if addr in old(accounts) then old(View()) else old(View())[addr := EMPTY_ACCOUNT]
      ensures addr !in old(accounts) ==> fresh(acc)
      decreases if addr in accounts then 0 else 2
    {
      if addr in accounts {
        return accounts[addr];
      }
      acc := Create(addr, 0, []);
    }

    method Create(addr: Word, balance: Word, code: Vector) returns (acc: SimpleAccount)
      requires Valid()
      modifies this
      ensures Valid() && Finds(addr, acc) && Keeps(old(accounts))
      ensures old(accounts.Keys) + {addr} == accounts.Keys
      ensures View() == if addr in old(accounts) then old(View())
                        else old(View())[addr := Account(balance, code, 0, map[])]
      ensures addr !in old(accounts) ==> fresh(acc)
      decreases 1
    {
      hide View;
      var p := new SimpleAccount(addr, balance, code);
      assert Objects() == old(Objects());
      assert View() == old(View());
      var _ := Insert(p);
      assert accounts[addr].Value() == p.Value() || addr in old(accounts);
      acc := Get(addr);
    }

    /** Accounts have only been added, and those are new objects. */
    twostate predicate Grew()
      reads this
    {
      Keeps(old(accounts)) && forall a :: a in accounts && a !in old(accounts) ==> fresh(accounts[a])
    }

    ghost predicate Finds(addr: Word, acc: SimpleAccount)
      reads this
    {
      addr in accounts && accounts[addr] == acc
    }

    /** No account has been replaced or dropped. */
    ghost predicate Keeps(before: map<Word, SimpleAccount>)
      reads this
    {
      forall a :: a in before ==> a in accounts && accounts[a] == before[a]
    }
  }

  /** The world after two accounts of it have changed. */
  lemma TwoAccounts(gs: SimpleGlobalState, before: map<Word, Account>, a: SimpleAccount, b: SimpleAccount)
    requires gs.Valid() && gs.Finds(a.address, a) && gs.Finds(b.address, b)
    requires before.Keys == gs.accounts.Keys
    requires forall x :: x in gs.accounts && x != a.address && x != b.address ==> gs.accounts[x].Value() == before[x]
    ensures gs.View() == before[a.address := a.Value()][b.address := b.Value()]
  {
  }

  /** The world after one account of it has changed. */
  lemma OneAccount(gs: SimpleGlobalState, before: map<Word, Account>, a: SimpleAccount)
    requires gs.Valid() && gs.Finds(a.address, a)
    requires before.Keys == gs.accounts.Keys
    requires forall x :: x in gs.accounts && x != a.address ==> gs.accounts[x].Value() == before[x]
    ensures gs.View() == before[a.address := a.Value()]
  {
  }

  /** The same payment on the map of values. */
  lemma PaidWorld(w: World, from: Word, to: Word, amount: Word, a: Account, b: Account)
    requires from in w.accounts && to in w.accounts
    requires amount <= w.accounts[from].balance && w.accounts[to].balance + amount < TWO256
    requires b == w.accounts[to].(balance := w.accounts[to].balance + amount)
    requires a == if from == to then b else w.accounts[from].(balance := w.accounts[from].balance - amount)
    ensures PayTo(w, from, to, amount) == Ok(w.(accounts := w.accounts[from := a][to := b]))
  {
    var x := w.accounts[from].(balance := w.accounts[from].balance - amount);
    assert w.accounts[from := x][to := b] == w.accounts[from := a][to := b];
  }

  lemma UnpaidWorld(w: World, from: Word, to: Word, amount: Word, e: ErrorType)
    requires from in w.accounts && to in w.accounts
    requires if amount > w.accounts[from].balance then e == OutOfFunds
             else w.accounts[to].balance + amount >= TWO256 && e == OverflowError
    ensures PayTo(w, from, to, amount) == Throw(e)
  {
  }

  /** A payment between accounts of the world is `PayTo` of that world. */
  method Pay(gs: SimpleGlobalState, from: SimpleAccount, to: SimpleAccount, amount: Word, ghost ds: seq<Word>)
    returns (r: Exc<()>)
    requires gs.Valid() && gs.Finds(from.address, from) && gs.Finds(to.address, to)
    modifies from`balance, to`balance
    ensures r.Ok? ==> PayTo(World(old(gs.View()), ds), from.address, to.address, amount) == Ok(World(gs.View(), ds))
    ensures r.Throw? ==> PayTo(World(old(gs.View()), ds), from.address, to.address, amount) == Throw(r.error)
    ensures r.Throw? ==> gs.View() == old(gs.View())
  {
    hide PayTo;
    ghost var w := World(gs.View(), ds);
    ghost var a, b := from.Value(), to.Value();
    assert w.accounts[from.address] == a && w.accounts[to.address] == b;
    r := from.PayTo(to, amount);
    TwoAccounts(gs, w.accounts, from, to);
    hide SimpleGlobalState.View;
    if r.Ok? {
      PaidWorld(w, from.address, to.address, amount, from.Value(), to.Value());
    } else {
      UnpaidWorld(w, from.address, to.address, amount, r.error);
    }
  }
}
