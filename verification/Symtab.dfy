/** The label table: a list of uniquely named symbols searched in order (src/assembler/symtab.c). */
module Symtab {
  import opened Words

  datatype Symbol = Symbol(name: string, address: word)

  predicate UniqueNames(symbols: seq<Symbol>) {
    forall i, j | 0 <= i < j < |symbols| :: symbols[i].name != symbols[j].name
  }

  /** The map a list of symbols stands for. */
  function TableOf(symbols: seq<Symbol>): map<string, word> {
    if symbols == [] then map[]
    else
      var n := |symbols| - 1;
      TableOf(symbols[..n])[symbols[n].name := symbols[n].address]
  }

  lemma {:induction false} TableNames(symbols: seq<Symbol>, name: string)
    ensures name in TableOf(symbols) <==> exists i :: 0 <= i < |symbols| && symbols[i].name == name
  {
    if symbols != [] {
      var n := |symbols| - 1;
      TableNames(symbols[..n], name);
      assert forall i | 0 <= i < n :: symbols[..n][i] == symbols[i];
    }
  }

  /** With unique names, the entry found first is the entry of the map. */
  lemma {:induction false} TableEntry(symbols: seq<Symbol>, i: nat)
    requires UniqueNames(symbols) && i < |symbols|
    ensures symbols[i].name in TableOf(symbols) && TableOf(symbols)[symbols[i].name] == symbols[i].address
  {
    var n := |symbols| - 1;
    if i < n {
      TableEntry(symbols[..n], i);
    }
  }

  class SymbolTable {
    var symbols: seq<Symbol>

    ghost predicate Valid()
      reads this
    {
      UniqueNames(symbols)
    }

    ghost function Table(): map<string, word>
      reads this
    {
      TableOf(symbols)
    }

    constructor ()
      ensures Valid() && Table() == map[]
    {
      symbols := [];
    }

    method Lookup(name: string) returns (found: bool, address: word)
      requires Valid()
      ensures found == (name in Table())
      ensures found ==> address == Table()[name]
    {
      var i := 0;
      while i < |symbols|
        invariant 0 <= i <= |symbols|
        invariant forall k | 0 <= k < i :: symbols[k].name != name
      {
        if symbols[i].name == name {
          TableEntry(symbols, i);
          return true, symbols[i].address;
        }
        i := i + 1;
      }
      TableNames(symbols, name);
      return false, 0;
    }

    /** Refuses a name that is already defined and leaves the table alone. */
    method Define(name: string, address: word) returns (ok: bool)
      requires Valid()
      modifies this
      ensures Valid()
      ensures ok == (name !in old(Table()))
      ensures Table() == if ok then old(Table())[name := address] else old(Table())
    {
      var found, _ := Lookup(name);
      if found {
        return false;
      }
      TableNames(symbols, name);
      ghost var before := symbols;
      symbols := symbols + [Symbol(name, address)];
      assert symbols[..|before|] == before;
      return true;
    }
  }
}
