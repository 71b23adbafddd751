/** The string that grows while text is printed to its end. */
module Astring {
  import opened Format

  class Astring {
    var data: array<char>
    var size: nat
    var len: nat

    ghost predicate Valid()
      reads this
    {
      data.Length == size && len < size
    }

    ghost function Content(): string
      reads this, data
      requires Valid()
    {
      data[..len]
    }

    constructor (size: nat)
      ensures Valid() && Content() == [] && fresh(data) && this.size == if size == 0 then 64 else size
    {
      var n := if size == 0 then 64 else size;
      data := new char[n](_ => ' ');
      this.size, len := n, 0;
    }

    /** Moves the characters to a larger buffer. */
    method Reallocate(n: nat)
      requires data.Length == size <= n
      modifies `data, `size
      ensures fresh(data) && data.Length == size == n
      ensures data[..old(size)] == old(data[..])
    {
      var larger := new char[n](_ => ' ');
      for i := 0 to size
        invariant data == old(data) && size == old(size)
        invariant larger[..i] == data[..i]
      {
        larger[i] := data[i];
      }
      data, size := larger, n;
    }

    /** Prints to the end of the content.  A printer that fills the whole buffer may have been cut off, so
        it starts over in one of twice the size. */
    method Asnprintf(fmt: string, args: seq<Arg>)
      requires Valid() && Output(fmt, args).Some?
      modifies this, data
      ensures Valid() && (data == old(data) || fresh(data))
      ensures Content() == old(Content()) + Output(fmt, args).value && data[len] == '\0'
      ensures size == old(size) || size / 2 <= len
    {
      ghost var out := Output(fmt, args).value;
      var last := Attempt(fmt, args);
      while last == size
        invariant 0 < len + 1 <= size == data.Length && len == old(len) && (data == old(data) || fresh(data))
        invariant data[..len] == old(Content())
        invariant last == (if |out| <= size - len then len + |out| else size) && data[len..last] == out[..last - len]
        invariant size == old(size) || size / 2 <= len + |out|
        decreases len + |out| + 1 - size
      {
        Reallocate(size * 2);
        last := Attempt(fmt, args);
      }
      Joined(data[..], len, last, out);
      Terminate(last);
    }

    /** Ends the content at `last`. */
    method Terminate(last: nat)
      requires last < data.Length
      modifies `len, data
      ensures len == last && data[..len] == old(data[..last]) && data[len] == '\0'
    {
      len := last;
      data[len] := '\0';
    }

    method Attempt(fmt: string, args: seq<Arg>) returns (last: nat)
      requires len <= size == data.Length && Output(fmt, args).Some?
      modifies data
      ensures len <= last <= size && data[..len] == old(data[..len])
      ensures var out := Output(fmt, args).value;
        last == (if |out| <= size - len then len + |out| else size) && data[len..last] == out[..last - len]
    {
      last := Vslprintf(data, len, size, fmt, args);
    }
  }

  lemma Joined(d: seq<char>, len: nat, last: nat, out: string)
    requires len <= last <= |d| && d[len..last] == out
    ensures d[..last] == d[..len] + out
  {
  }
}
