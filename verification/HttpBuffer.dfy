/** The growing buffer that HTTP responses are collected in. */
module HttpBuffer {
  import opened Bytes

  const FIRST_CAPACITY: nat := 4096

  class Buffer {
    const limit: nat
    var data: array<byte>
    var size: nat
    var overflowed: bool

    ghost predicate Valid()
      reads this
    {
      size <= data.Length && size <= limit
    }

    ghost function Contents(): seq<byte>
      requires Valid()
      reads this, data
    {
      data[..size]
    }

    constructor (limit: nat)
      ensures Valid() && this.limit == limit && Contents() == [] && !overflowed && fresh(data)
    {
      this.limit, size, overflowed := limit, 0, false;
      data := new byte[0];
    }

    /** The capacity to grow to: doubled until it suffices, or the limit itself. */
    method Grown(required: nat) returns (capacity: nat)
      requires Valid() && data.Length < required <= limit
      ensures required <= capacity && (capacity <= limit || capacity == FIRST_CAPACITY || capacity == data.Length)
    {
      capacity := if data.Length > 0 then data.Length else FIRST_CAPACITY;
      while capacity < required
        invariant 0 < capacity && (capacity <= limit || capacity == FIRST_CAPACITY || capacity == data.Length)
        decreases required - capacity
      {
        if capacity > limit / 2 {
          capacity := limit;
          break;
        }
        capacity := capacity * 2;
      }
    }

    /** retro_vault_buffer_append. All of the bytes are appended, or none: none exactly when they do not fit the limit,
        which is remembered, or when memory is refused (`granted`). */
    method Append(bytes: seq<byte>, granted: bool) returns (code: int)
      requires Valid()
      modifies this, data
      ensures Valid() && (data == old(data) || fresh(data))
      ensures code == 0 || code == -1
      ensures Contents() == if code == 0 then old(Contents()) + bytes else old(Contents())
      ensures old(size) + |bytes| > limit ==> code == -1 && overflowed
      ensures old(size) + |bytes| <= limit ==>
                && overflowed == old(overflowed)
                && (code == 0 <==> granted || old(size) + |bytes| <= old(data.Length))
    {
      if |bytes| > limit || size > limit - |bytes| {
        overflowed := true;
        return -1;
      }
      var required := size + |bytes|;
      if required > data.Length {
        var capacity := Grown(required);
        if !granted {
          return -1;
        }
        var resized := new byte[capacity];
        CopyInto(resized, 0, data[..size]);
        data := resized;
        assert data[..size] == old(data[..size]);
      }
      CopyInto(data, size, bytes);
      size := size + |bytes|;
      return 0;
    }
  }
}
