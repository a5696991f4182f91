/** The two helpers of the reader's port set-up (main.go's `portSetup` and
    `detectCgroupPath`): the byte swap that turns the port number into the
    value the kernel program compares with the TCP source field, and the scan
    of the mount table for the first `cgroup2` mount. The map update, the
    cgroup attach and the opening and line splitting of `/proc/mounts` are
    not part of this model: the scan is given the file's open error and its
    lines. */
module Setup {
  import opened Wire
  import Life

  /** `uint16((port >> 8) + ((port & 0xff) << 8))` for a Go `int`. For a
      positive divisor Dafny's `/` and `%` are Go's arithmetic shift and mask,
      also for negative ports, and the conversion keeps the low 16 bits. */
  function PortKey(port: int): U16 {
    (port / 0x100 + (port % 0x100) * 0x100) % 0x1_0000
  }

  /** For a port in range the key is the port with its two bytes exchanged. */
  lemma PortKeySwapsBytes(port: U16)
    ensures PortKey(port) / 0x100 == port % 0x100
    ensures PortKey(port) % 0x100 == port / 0x100
  {
    var lo, hi := port % 0x100, port / 0x100;
    assert port / 0x100 + lo * 0x100 == lo * 0x100 + hi < 0x1_0000;
  }

  /** Swapping twice gives the port back. */
  lemma {:induction false} PortKeyInvolution(port: U16)
    ensures PortKey(PortKey(port)) == port
  {
    var k := PortKey(port);
    PortKeySwapsBytes(port);
    PortKeySwapsBytes(k);
    assert port == (port / 0x100) * 0x100 + port % 0x100;
  }

  /** The command line's 65137 becomes 0x71fe. */
  lemma KickoffPortKey()
    ensures PortKey(65137) == 0x71fe
  {
  }

  /** A TCP source port travels high byte first; the kernel program loads the
      two bytes into a little-endian `__u16`, so it reads the port's key. */
  lemma {:induction false} SourceFieldIsPortKey(pkt: seq<Byte>, tcpOff: nat, port: U16)
    requires tcpOff + 2 <= |pkt|
    requires pkt[tcpOff] == port / 0x100 && pkt[tcpOff + 1] == port % 0x100
    ensures Life.TcpSource(pkt, tcpOff) == PortKey(port)
  {
    PortKeySwapsBytes(port);
    var k := PortKey(port);
    assert k == (k / 0x100) * 0x100 + k % 0x100;
  }

  /** Of all source ports, exactly 65137 starts the game. */
  lemma {:induction false} OnlyKickoffPort(port: U16)
    ensures PortKey(port) == 0x71fe <==> port == 65137
  {
    KickoffPortKey();
    if PortKey(port) == 0x71fe {
      PortKeyInvolution(port);
    }
  }

  /** `strings.Split(s, " ")`: the pieces between single spaces, in order;
      consecutive spaces give empty fields and there is always one field. */
  function Split(s: string): (fields: seq<string>)
    ensures |fields| >= 1
    ensures forall k :: 0 <= k < |fields| ==> ' ' !in fields[k]
    decreases |s|
  {
    if |s| == 0 then [""]
    else
      var rest := Split(s[1..]);
      if s[0] == ' ' then [""] + rest else [[s[0]] + rest[0]] + rest[1..]
  }

  /** `strings.Join(fields, " ")`. */
  function Join(fields: seq<string>): string
    requires |fields| >= 1
    decreases |fields|
  {
    if |fields| == 1 then fields[0] else fields[0] + " " + Join(fields[1..])
  }

  lemma JoinFront(x: string, fields: seq<string>)
    requires |fields| >= 1
    ensures Join([x + fields[0]] + fields[1..]) == x + Join(fields)
  {
    var f := fields[0];
    var g := [x + f] + fields[1..];
    assert g[0] == x + f && g[1..] == fields[1..];
    if |fields| > 1 {
      var t := Join(fields[1..]);
      assert Join(g) == (x + f) + " " + t;
      assert Join(fields) == f + " " + t;
      AppendAssoc(x, f, " ");
      AppendAssoc(x, f + " ", t);
    }
  }

  /** Joining the fields with single spaces gives the line back. */
  lemma {:induction false} JoinSplit(s: string)
    ensures Join(Split(s)) == s
    decreases |s|
  {
    if |s| > 0 {
      var rest := Split(s[1..]);
      JoinSplit(s[1..]);
      if s[0] == ' ' {
        assert ([""] + rest)[1..] == rest;
      } else {
        JoinFront([s[0]], rest);
      }
      assert s == [s[0]] + s[1..];
    }
  }

  /** Splitting a word with no space followed by more text. */
  lemma {:induction false} SplitWord(w: string, t: string)
    requires ' ' !in w
    ensures Split(w + t) == [w + Split(t)[0]] + Split(t)[1..]
    decreases |w|
  {
    if |w| > 0 {
      var v := w[1..];
      assert (w + t)[1..] == v + t;
      assert (w + t)[0] == w[0] && w[0] != ' ';
      SplitWord(v, t);
      assert [w[0]] + (v + Split(t)[0]) == w + Split(t)[0];
    } else {
      var u := Split(t);
      assert w + t == t && w + u[0] == u[0];
      assert u == [u[0]] + u[1..];
    }
  }

  /** Fields without spaces split back out of their join: the split loses
      nothing, empty fields included. */
  lemma {:induction false} SplitJoin(fields: seq<string>)
    requires |fields| >= 1
    requires forall k :: 0 <= k < |fields| ==> ' ' !in fields[k]
    ensures Split(Join(fields)) == fields
    decreases |fields|
  {
    var w := fields[0];
    if |fields| == 1 {
      SplitWord(w, "");
      assert w + "" == w;
    } else {
      var t := Join(fields[1..]);
      SplitJoin(fields[1..]);
      assert Split(" " + t) == [""] + Split(t) by {
        assert (" " + t)[1..] == t;
      }
      SplitWord(w, " " + t);
      assert w + (" " + t) == w + " " + t;
      assert w + "" == w && ([""] + Split(t))[1..] == Split(t);
      assert fields == [w] + fields[1..];
    }
  }

  /** A mount-table line whose third field is `cgroup2`. */
  predicate Cgroup2Mount(line: string) {
    var fields := Split(line);
    |fields| >= 3 && fields[2] == "cgroup2"
  }

  /** The error returned when no line is a `cgroup2` mount. */
  const NotMounted: string := "cgroup2 not mounted"

  /** `detectCgroupPath`: the mount point (second field) of the first
      `cgroup2` line, the open error if the table cannot be opened, and
      "cgroup2 not mounted" if no line matches. */
  method DetectCgroupPath(openError: Option<string>, lines: seq<string>) returns (r: Result<string, string>)
    ensures openError.Some? ==> r == Err(openError.value)
    ensures openError.None? ==>
      (r.Ok? <==> exists i :: 0 <= i < |lines| && Cgroup2Mount(lines[i]))
    ensures openError.None? && r.Ok? ==>
      exists i :: 0 <= i < |lines| && Cgroup2Mount(lines[i]) &&
        (forall j :: 0 <= j < i ==> !Cgroup2Mount(lines[j])) &&
        r.value == Split(lines[i])[1]
    ensures openError.None? && r.Err? ==> r.error == NotMounted
  {
    if openError.Some? {
      return Err(openError.value);
    }
    var i := 0;
    while i < |lines|
      invariant i <= |lines|
      invariant forall j :: 0 <= j < i ==> !Cgroup2Mount(lines[j])
    {
      var fields := Split(lines[i]);
      if |fields| >= 3 && fields[2] == "cgroup2" {
        return Ok(fields[1]);
      }
      i := i + 1;
    }
    return Err(NotMounted);
  }
}
