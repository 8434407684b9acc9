/** The byte ring: 33 slots that hold up to 32 bytes. */
module Ring {
  import opened Words

  const SLOTS: nat := 33

  class Buffer {
    const buff: array<char>
    var prodIndex: int
    var consIndex: int

    ghost predicate Valid()
      reads this
    {
      buff.Length == SLOTS && 0 <= prodIndex < SLOTS && 0 <= consIndex < SLOTS
    }

    /** The bytes waiting, oldest first. */
    ghost function Queue(): (q: seq<char>)
      requires Valid()
      reads this, buff
      ensures |q| <= 32
    {
      if consIndex <= prodIndex then buff[consIndex..prodIndex] else buff[consIndex..] + buff[..prodIndex]
    }

    constructor ()
      ensures Valid() && Queue() == [] && fresh(buff)
    {
      buff := new char[SLOTS];
      prodIndex, consIndex := 0, 0;
    }

    /** Removes the oldest byte, to be handed to the consumer; nothing on an empty ring. */
    method Consume() returns (byte: Option<char>)
      requires Valid()
      modifies this
      ensures Valid()
      ensures if old(Queue()) == [] then byte == None && Queue() == []
              else byte == Some(old(Queue())[0]) && Queue() == old(Queue())[1..]
    {
      if prodIndex == consIndex {
        return None;
      }
      byte := Some(buff[consIndex]);
      consIndex := consIndex + 1;
      if consIndex >= SLOTS {
        consIndex := 0;
      }
    }

    /** Appends a byte; a full ring ignores it. */
    method Produce(byte: char)
      requires Valid()
      modifies this, buff
      ensures Valid()
      ensures Queue() == if |old(Queue())| < 32 then old(Queue()) + [byte] else old(Queue())
    {
      if prodIndex == consIndex - 1 || (prodIndex == SLOTS - 1 && consIndex == 0) {
        return;
      }
      buff[prodIndex] := byte;
      prodIndex := prodIndex + 1;
      if prodIndex >= SLOTS {
        prodIndex := 0;
      }
    }

    /** How many bytes wait. */
    method Consumeable() returns (n: nat)
      requires Valid()
      ensures n == |Queue()|
    {
      if prodIndex == consIndex {
        return 0;
      }
      if prodIndex > consIndex {
        return prodIndex - consIndex;
      }
      return SLOTS - (consIndex - prodIndex);
    }

    /** How many bytes still fit. */
    method Produceable() returns (n: nat)
      requires Valid()
      ensures n == 32 - |Queue()|
    {
      if consIndex == prodIndex {
        return SLOTS - 1;
      }
      var consumeable := Consumeable();
      return SLOTS - consumeable - 1;
    }
  }
}
