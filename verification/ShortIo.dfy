/** The chunk loops of internal/qconn/file.go:200-291 against an arbitrary file server: one that takes or
    returns any number of octets up to the number asked for, or fails, as it likes. */
module ShortIo {
  import opened QconnDaemon
  import opened QconnStore

  class Server {
    var content: string
    /** Whether a request was answered with nothing or with an error. */
    ghost var balked: bool
    /** Whether a request was answered with an error. */
    ghost var failed: bool

    constructor (content: string)
      ensures this.content == content && !balked && !failed
    {
      this.content, balked, failed := content, false, false;
    }

    /** Stores some front part of the data. A request that fails may still have stored some of it; one
        at a negative offset fails and stores nothing. */
    method Write(off: int, data: string) returns (nw: nat, ok: bool, ghost stored: nat)
      modifies this
      ensures nw <= |data| && stored <= |data| && (ok ==> stored == nw)
      ensures off < 0 ==> !ok && stored == 0
      ensures content == Written(old(content), off, data[..stored])
      ensures failed == (old(failed) || !ok) && balked == (old(balked) || !ok || nw == 0)
    {
      ok := *;
      nw :| nw <= |data|;
      var k: nat := nw;
      if !ok {
        k :| k <= |data|;
      }
      if off < 0 {
        ok, k := false, 0;
      }
      stored := k;
      content := Written(content, off, data[..k]);
      failed, balked := failed || !ok, balked || !ok || nw == 0;
    }

    /** Returns some front part of what is there; at a negative offset there is nothing but an error. */
    method Read(off: int, n: nat) returns (data: string, ok: bool)
      modifies this`balked, this`failed
      ensures off < 0 ==> !ok
      ensures off >= 0 ==> data <= Slice(content, off, n)
      ensures failed == (old(failed) || !ok) && balked == (old(balked) || !ok || data == "")
    {
      data, ok := "", false;
      if off >= 0 {
        ok := *;
        var all := Slice(content, off, n);
        var k: nat :| k <= |all|;
        data := all[..k];
      }
      failed, balked := failed || !ok, balked || !ok || data == "";
    }
  }

  /** The content of a file after a store; nothing stored is nothing changed. */
  function Written(content: string, off: int, data: string): string {
    if data == "" || off < 0 then content else Overlay(content, off, data)
  }

  /** What a chunked write leaves: a front part of the data, of which `total` is reported; on success
      that is all that was stored, and a total that falls short means that the server balked. */
  method WriteAll(server: Server, off: int, data: string) returns (total: nat, ok: bool, ghost stored: nat)
    requires !server.balked && !server.failed
    modifies server
    ensures total <= stored <= |data| && (ok ==> stored == total)
    ensures server.content == Written(old(server.content), off, data[..stored])
    ensures ok == !server.failed
    ensures total < |data| ==> server.balked
    ensures off < 0 ==> stored == 0 && ok == (data == "")
  {
    total, ok, stored := 0, true, 0;
    ghost var was := server.content;
    while total < |data|
      invariant total == stored <= |data| && ok && !server.failed && !server.balked
      invariant server.content == Written(was, off, data[..stored])
      invariant off < 0 ==> stored == 0
      decreases |data| - total
    {
      var end := total + WRITE_CHUNK;
      if end > |data| {
        end := |data|;
      }
      var nw;
      ghost var more;
      nw, ok, more := WriteChunk(server, off, data, total, end, was);
      stored := stored + more;
      if !ok {
        return;
      }
      if nw <= 0 {
        break;
      }
      total := total + nw;
    }
  }

  method WriteChunk(server: Server, off: int, data: string, total: nat, end: nat, ghost was: string)
    returns (nw: nat, ok: bool, ghost more: nat)
    requires total < end <= |data| && server.content == Written(was, off, data[..total]) && (off < 0 ==> total == 0)
    requires !server.balked && !server.failed
    modifies server
    ensures nw <= end - total && more <= end - total && (ok ==> more == nw) && (off < 0 ==> !ok && more == 0)
    ensures server.content == Written(was, off, data[..total + more])
    ensures server.failed == !ok && server.balked == (!ok || nw == 0)
  {
    nw, ok, more := server.Write(off + total, data[total..end]);
    FrontInTwo(data, total, end, more);
    WrittenInTwo(was, off, data[..total], data[total..end][..more]);
  }

  lemma FrontInTwo(data: string, total: nat, end: nat, stored: nat)
    requires total <= end <= |data| && stored <= end - total
    ensures data[..total] + data[total..end][..stored] == data[..total + stored] && |data[..total]| == total
  {
  }

  lemma WrittenInTwo(was: string, off: int, a: string, b: string)
    requires off < 0 ==> a == b == ""
    ensures Written(Written(was, off, a), off + |a|, b) == Written(was, off, a + b)
  {
    if a == "" {
      assert a + b == b;
    } else if b == "" {
      assert a + b == a;
    } else {
      OverlayInTwo(was, off, a, b);
    }
  }

  /** So whatever the server does, the target range holds the first `total` octets of the data, and
      nothing outside the range of the data has changed. */
  lemma WrittenLands(was: string, now: string, off: nat, data: string, total: nat, stored: nat)
    requires total <= stored <= |data| && now == Written(was, off, data[..stored])
    ensures total > 0 ==> off + total <= |now| && now[off..off + total] == data[..total]
    ensures |was| <= |now| && (|now| > |was| ==> |now| <= off + |data|)
    ensures forall i | 0 <= i < |was| && !(off <= i < off + |data|) :: now[i] == was[i]
  {
    forall i | 0 <= i < |was| && !(off <= i < off + |data|)
      ensures now[i] == was[i]
    {
    }
  }

  method ReadRange(server: Server, off: int, n: int) returns (out: string, ok: bool)
    requires !server.balked && !server.failed
    modifies server`balked, server`failed
    ensures n <= 0 ==> out == "" && ok
    ensures n > 0 ==> out <= if off < 0 then "" else Slice(server.content, off, n)
    ensures n > 0 && off < 0 ==> !ok
    ensures ok == !server.failed
    ensures |out| < n ==> server.balked
  {
    out, ok := "", true;
    while |out| < n
      invariant ok && !server.failed && !server.balked
      invariant n > 0 && off >= 0 ==> out <= Slice(server.content, off, n)
      invariant off < 0 ==> out == ""
      invariant n <= 0 ==> out == ""
      decreases n - |out|
    {
      var want := n - |out|;
      if want > READ_CHUNK {
        want := READ_CHUNK;
      }
      var chunk;
      chunk, ok := server.Read(off + |out|, want);
      if !ok {
        return;
      }
      if |chunk| == 0 {
        break;
      }
      SliceOn(server.content, off, n, out, want, chunk);
      out := out + chunk;
    }
  }

  lemma SliceOn(content: string, off: nat, n: nat, out: string, want: nat, chunk: string)
    requires out <= Slice(content, off, n) && |out| + want <= n && chunk <= Slice(content, off + |out|, want)
    ensures out + chunk <= Slice(content, off, n)
  {
    var all := Slice(content, off, n);
    if chunk != "" {
      var k := off + |out|;
      assert chunk == content[k..k + |chunk|];
      assert out == content[off..k];
      assert out + chunk == content[off..k + |chunk|];
      assert all[..|out| + |chunk|] == content[off..k + |chunk|];
    }
  }
}
