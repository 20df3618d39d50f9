/** Runs of reads on one open file, and the character and line readers built on them. */
module FileStreams {
  import opened PhysicalMemory
  import opened Disk
  import opened FatVolume
  import opened FatFile

  /** How much each of a run of reads returns when `left` bytes remain and nothing goes wrong. */
  function Lengths(wanted: seq<nat>, left: nat): (ns: seq<nat>)
    ensures |ns| == |wanted|
  {
    if wanted == [] then []
    else
      var n := if wanted[0] < left then wanted[0] else left;
      [n] + Lengths(wanted[1..], left - n)
  }

  function Sum(ns: seq<nat>): nat {
    if ns == [] then 0 else ns[0] + Sum(ns[1..])
  }

  lemma {:induction false} SumAppend(ns: seq<nat>, n: nat)
    ensures Sum(ns + [n]) == Sum(ns) + n
  {
    if ns == [] {
      assert ns + [n] == [n];
    } else {
      assert (ns + [n])[1..] == ns[1..] + [n];
      SumAppend(ns[1..], n);
    }
  }

  lemma {:induction false} SumWithin(wanted: seq<nat>, left: nat)
    ensures Sum(Lengths(wanted, left)) <= left
  {
    if wanted != [] {
      SumWithin(wanted[1..], left - if wanted[0] < left then wanted[0] else left);
    }
  }

  lemma {:induction false} LengthsAppend(wanted: seq<nat>, w: nat, left: nat)
    ensures Sum(Lengths(wanted, left)) <= left
    ensures var rest := left - Sum(Lengths(wanted, left));
            Lengths(wanted + [w], left) == Lengths(wanted, left) + [if w < rest then w else rest]
  {
    if wanted == [] {
      assert wanted + [w] == [w];
    } else {
      var n := if wanted[0] < left then wanted[0] else left;
      SumWithin(wanted, left);
      LengthsAppend(wanted[1..], w, left - n);
      assert (wanted + [w])[1..] == wanted[1..] + [w];
    }
  }

  /** A run of reads returns as much as the requests and the file allow. */
  lemma {:induction false} LengthsTotal(wanted: seq<nat>, left: nat)
    ensures Sum(Lengths(wanted, left)) == if Sum(wanted) < left then Sum(wanted) else left
  {
    if wanted != [] {
      var n := if wanted[0] < left then wanted[0] else left;
      LengthsTotal(wanted[1..], left - n);
    }
  }

  lemma PrefixGrows(b0: seq<Byte>, b1: seq<Byte>, at: nat, more: seq<Byte>)
    requires at + |more| <= |b0| && b1 == b0[..at] + more + b0[at + |more|..]
    ensures b1[..at + |more|] == b0[..at] + more
  {
  }

  /** The bytes of one more read continue those in front of them. */
  lemma {:induction false} PieceJoined(v: Volume, first: nat, start: nat, reached: nat, now: nat, b0: seq<Byte>, b1: seq<Byte>, at: nat)
    requires 0 < v.sectorsPerCluster && start <= reached <= now && at + (now - reached) <= |b0|
    requires b0[..at] == v.Bytes(first, start, reached)
    requires b1 == b0[..at] + v.Bytes(first, reached, now) + b0[at + (now - reached)..]
    ensures b1[..at + (now - reached)] == v.Bytes(first, start, now)
  {
    BytesJoin(v, first, start, reached, now);
    PrefixGrows(b0, b1, at, v.Bytes(first, reached, now));
  }

  /** And its length is that specified. */
  lemma {:induction false} LengthsNext(wanted: seq<nat>, lengths: seq<nat>, w: nat, n: nat, left: nat)
    requires lengths == Lengths(wanted, left) && Sum(lengths) <= left && n == if w < left - Sum(lengths) then w else left - Sum(lengths)
    ensures lengths + [n] == Lengths(wanted + [w], left)
  {
    LengthsAppend(wanted, w, left);
  }

  /** What a run of reads from position `start` returned so far: `total` bytes in pieces of `lengths`. */
  ghost predicate RunSoFar(file: File, buff: array<Byte>, start: nat, quiet: int, wanted: seq<nat>, lengths: seq<nat>, total: nat)
    reads file, file.buffer, file.fat, file.fat.fatBuffer, file.fat.partition.drive, buff
  {
    && file.Valid() && quiet <= file.fat.Requests() && total == Sum(lengths) && total <= buff.Length
    && start <= file.size && file.position == start + total
    && buff[..total] == file.fat.View().Bytes(file.firstCluster, start, file.position)
    && (!file.error ==> lengths == Lengths(wanted, file.size - start))
    && (file.error ==> |lengths| == |wanted| && !(file.fat.Quiet(quiet, file.fat.Requests()) && file.Intact()))
  }

  method ReadNext(file: File, buff: array<Byte>, w: nat, at: nat,
                  ghost start: nat, ghost quiet: int, ghost wanted: seq<nat>, ghost lengths: seq<nat>)
    returns (n: nat)
    requires buff != file.buffer && buff != file.fat.fatBuffer && at + w <= buff.Length
    requires RunSoFar(file, buff, start, quiet, wanted, lengths, at)
    modifies file, file.buffer, buff, file.fat`fatSector, file.fat.fatBuffer, file.fat.partition.drive`requests
    ensures n <= w && RunSoFar(file, buff, start, quiet, wanted + [w], lengths + [n], at + n)
  {
    ghost var reached, before := file.position, buff[..];
    n := file.Read(buff, at, w);
    PieceJoined(file.fat.View(), file.firstCluster, start, reached, file.position, before, buff[..], at);
    SumAppend(lengths, n);
    if !file.error {
      LengthsNext(wanted, lengths, w, n, file.size - start);
    }
  }

  /** Any sequence of reads returns consecutive slices of the file, each as long as requested or as
      the file allows; with an error in between, what was returned is still a correct prefix. */
  method ReadRun(file: File, buff: array<Byte>, wanted: seq<nat>) returns (lengths: seq<nat>, total: nat)
    requires file.Valid() && !file.error && buff != file.buffer && buff != file.fat.fatBuffer && Sum(wanted) <= buff.Length
    modifies file, file.buffer, buff, file.fat`fatSector, file.fat.fatBuffer, file.fat.partition.drive`requests
    ensures RunSoFar(file, buff, old(file.position), old(file.fat.Requests()), wanted, lengths, total)
  {
    lengths, total := [], 0;
    var i := 0;
    while i < |wanted|
      invariant 0 <= i <= |wanted| && total + Sum(wanted[i..]) <= buff.Length
      invariant RunSoFar(file, buff, old(file.position), old(file.fat.Requests()), wanted[..i], lengths, total)
    {
      assert wanted[i..] == [wanted[i]] + wanted[i + 1..];
      assert wanted[..i + 1] == wanted[..i] + [wanted[i]];
      var n := ReadNext(file, buff, wanted[i], total, old(file.position), old(file.fat.Requests()), wanted[..i], lengths);
      lengths := lengths + [n];
      total := total + n;
      i := i + 1;
    }
    assert wanted[..i] == wanted;
  }

  const END: int := -1

  /** The next byte of the file as a number, or `END` at its end and on errors. */
  method FGetC(file: File) returns (c: int)
    requires file.Valid()
    modifies file, file.buffer, file.fat`fatSector, file.fat.fatBuffer, file.fat.partition.drive`requests
    ensures file.Valid() && old(file.fat.Requests()) <= file.fat.Requests()
    ensures c == END <==> file.position == old(file.position)
    ensures c != END ==> file.position == old(file.position) + 1 && c == file.fat.View().FileByte(file.firstCluster, old(file.position))
    ensures c == END ==> file.error || old(file.position) == file.size
    ensures old(file.error) ==> file.error && c == END
    ensures file.error && !old(file.error) ==> !(file.fat.Quiet(old(file.fat.Requests()), file.fat.Requests()) && file.Intact())
  {
    var read := new Byte[1] (_ => 0);
    var n := file.Read(read, 0, 1);
    if n != 1 {
      c := END;
    } else {
      assert read[..][0] == file.fat.View().Bytes(file.firstCluster, old(file.position), file.position)[0];
      c := read[0];
    }
  }

  const NEWLINE: Byte := 0x0A

  /** The byte that, read back as a signed char, equals `END`. */
  const LOOKALIKE: Byte := 0xFF

  /** How many bytes a line reader stores: up to and including a newline, at most `limit`. */
  function LineLength(data: seq<Byte>, limit: nat): (n: nat)
    ensures n <= |data| && n <= limit
  {
    if data == [] || limit == 0 then 0
    else if data[0] == NEWLINE then 1
    else 1 + LineLength(data[1..], limit - 1)
  }

  /** How many bytes fgets stores: it also stops, and drops a byte, at the look-alike of `END`. */
  function StoredLength(data: seq<Byte>, limit: nat): (n: nat)
    ensures n <= |data| && n <= limit
  {
    if data == [] || limit == 0 || data[0] == LOOKALIKE then 0
    else if data[0] == NEWLINE then 1
    else 1 + StoredLength(data[1..], limit - 1)
  }

  /** fgets returns the whole line exactly when the line does not contain the byte 0xFF. */
  lemma {:induction false} WholeLineExactlyWhen(data: seq<Byte>, limit: nat)
    ensures StoredLength(data, limit) == LineLength(data, limit) <==> LOOKALIKE !in data[..LineLength(data, limit)]
  {
    if data == [] || limit == 0 || data[0] == NEWLINE {
    } else {
      WholeLineExactlyWhen(data[1..], limit - 1);
      var n := LineLength(data[1..], limit - 1);
      assert data[..n + 1] == [data[0]] + data[1..][..n];
      if data[0] == LOOKALIKE {
        assert data[..n + 1][0] == LOOKALIKE;
      }
    }
  }

  /** A line that is cut off: an A, the byte 0xFF and a newline. */
  lemma LineCutOff()
    ensures StoredLength([0x41, LOOKALIKE, NEWLINE], 10) == 1 && LineLength([0x41, LOOKALIKE, NEWLINE], 10) == 3
  {
    var data: seq<Byte> := [0x41, LOOKALIKE, NEWLINE];
    assert data[1..] == [LOOKALIKE, NEWLINE] && data[1..][1..] == [NEWLINE];
    assert LineLength([NEWLINE], 8) == 1;
    assert LineLength([LOOKALIKE, NEWLINE], 9) == 1 + LineLength([NEWLINE], 8);
  }

  /** The bytes from the current position to the end of the file. */
  ghost function Rest(file: File): (bs: seq<Byte>)
    requires 0 < file.fat.sectorsPerCluster && file.position <= file.size
    reads file
  {
    file.fat.View().Bytes(file.firstCluster, file.position, file.size)
  }

  /** How many bytes fgets takes from the file: those it stores, and the look-alike it drops. */
  function TakenLength(data: seq<Byte>, limit: nat): (n: nat)
    ensures StoredLength(data, limit) <= n <= |data|
  {
    if data == [] || limit == 0 then 0
    else if data[0] == LOOKALIKE || data[0] == NEWLINE then 1
    else 1 + TakenLength(data[1..], limit - 1)
  }

  /** A line of text, without its newline: shorter than the limit, and clear of the byte that is dropped. */
  predicate Line(s: seq<Byte>, limit: nat) {
    |s| < limit && 0x0A !in s && 0xFF !in s
  }

  /** Lines, each ended by a newline. */
  function Joined(lines: seq<seq<Byte>>): seq<Byte> {
    if lines == [] then [] else lines[0] + [0x0A] + Joined(lines[1..])
  }

  /** What calls of fgets return one after the other, up to the end of the data. */
  function Returned(data: seq<Byte>, limit: nat): seq<seq<Byte>>
    requires 0 < limit
    decreases |data|
  {
    if data == [] then [] else [data[..StoredLength(data, limit)]] + Returned(data[TakenLength(data, limit)..], limit)
  }

  lemma {:induction false} LineTaken(s: seq<Byte>, rest: seq<Byte>, limit: nat)
    requires Line(s, limit)
    ensures var data := s + [0x0A] + rest; StoredLength(data, limit) == TakenLength(data, limit) == |s| + 1
  {
    var data := s + [0x0A] + rest;
    if s != [] {
      assert data[1..] == s[1..] + [0x0A] + rest;
      assert s[0] in s && forall b :: b in s[1..] ==> b in s;
      LineTaken(s[1..], rest, limit - 1);
    }
  }

  /** Reading lines gives back what they were joined from, newlines included. */
  lemma {:induction false} LinesReturned(lines: seq<seq<Byte>>, limit: nat)
    requires 0 < limit && forall k :: 0 <= k < |lines| ==> Line(lines[k], limit)
    ensures |Returned(Joined(lines), limit)| == |lines|
    ensures forall k :: 0 <= k < |lines| ==> Returned(Joined(lines), limit)[k] == lines[k] + [0x0A]
  {
    if lines != [] {
      var (s, rest) := (lines[0], Joined(lines[1..]));
      var data := s + [0x0A] + rest;
      LineTaken(s, rest, limit);
      assert data == Joined(lines) && data[..|s| + 1] == s + [0x0A] && data[|s| + 1..] == rest;
      LinesReturned(lines[1..], limit);
    }
  }

  /** An error that was not there at the start has a cause: since request `quiet` the drive failed, or
      the chain of clusters is broken. */
  ghost predicate Excused(file: File, quiet: int, failed: bool)
    reads file, file.buffer, file.fat, file.fat.fatBuffer, file.fat.partition.drive
    requires file.Valid()
  {
    && quiet <= file.fat.Requests()
    && (file.error && !failed ==> !(file.fat.Quiet(quiet, file.fat.Requests()) && file.Intact()))
  }

  /** fgetc as fgets sees it: the result squeezed into a signed char. */
  method NextChar(file: File, ghost quiet: int, ghost failed: bool) returns (c: int)
    requires file.Valid() && Excused(file, quiet, failed)
    modifies file, file.buffer, file.fat`fatSector, file.fat.fatBuffer, file.fat.partition.drive`requests
    ensures file.Valid() && Excused(file, quiet, failed) && (old(file.error) ==> file.error)
    ensures if file.position == old(file.position) then
              c == END && (file.error || old(Rest(file)) == []) && Rest(file) == old(Rest(file))
            else
              && file.position == old(file.position) + 1 && old(Rest(file)) != []
              && c == (if old(Rest(file))[0] == LOOKALIKE then END else SignedChar(old(Rest(file))[0]))
              && Rest(file) == old(Rest(file))[1..]
  {
    ghost var rest := Rest(file);
    var read := FGetC(file);
    c := if read == END then END else SignedChar(read);
    if read != END {
      assert rest[0] == read;
      assert Rest(file) == rest[1..];
    }
  }

  /** `count` bytes of the line were stored and `taken` were taken; unless there was an error, these are
      what fgets stores and takes of `data` once it has gone through the rest. */
  ghost predicate Progress(data: seq<Byte>, limit: nat, count: nat, taken: nat, stop: bool, error: bool) {
    && count <= taken <= |data| && count <= limit
    && (taken == count || (taken == count + 1 && data[count] == LOOKALIKE && stop))
    && (!error ==> StoredLength(data, limit) == count + if stop then 0 else StoredLength(data[count..], limit - count))
    && (!error ==> TakenLength(data, limit) == taken + if stop then 0 else TakenLength(data[count..], limit - count))
  }

  /** The file stands `taken` bytes behind `from`. */
  ghost predicate LineAt(file: File, from: nat, data: seq<Byte>, limit: nat, count: nat, taken: nat, stop: bool)
    reads file, file.buffer, file.fat, file.fat.fatBuffer
  {
    && file.Valid() && Progress(data, limit, count, taken, stop, file.error)
    && file.position == from + taken && Rest(file) == data[taken..]
  }

  ghost predicate LineSoFar(file: File, s: array<Byte>, from: nat, data: seq<Byte>, limit: nat, count: nat, taken: nat, stop: bool)
    reads file, file.buffer, file.fat, file.fat.fatBuffer, s
  {
    LineAt(file, from, data, limit, count, taken, stop) && limit <= s.Length && s[..count] == data[..count]
  }

  lemma StoredStep(data: seq<Byte>, count: nat, limit: nat)
    requires count < |data| && 0 < limit
    ensures data[count..][1..] == data[count + 1..]
    ensures StoredLength(data[count..], limit) ==
            if data[count] == LOOKALIKE then 0
            else 1 + if data[count] == NEWLINE then 0 else StoredLength(data[count + 1..], limit - 1)
    ensures TakenLength(data[count..], limit) ==
            1 + if data[count] == LOOKALIKE || data[count] == NEWLINE then 0 else TakenLength(data[count + 1..], limit - 1)
  {
    assert data[count..][1..] == data[count + 1..];
  }

  lemma ProgressEnds(data: seq<Byte>, limit: nat, count: nat, error: bool, error': bool)
    requires Progress(data, limit, count, count, false, error) && count < limit && (error ==> error')
    requires error' || count == |data|
    ensures Progress(data, limit, count, count, true, error')
  {
  }

  lemma ProgressTakes(data: seq<Byte>, limit: nat, count: nat, error: bool, error': bool)
    requires Progress(data, limit, count, count, false, error) && count < limit && count < |data| && (error ==> error')
    ensures data[count..][0] == data[count] && data[count..][1..] == data[count + 1..]
    ensures if data[count] == LOOKALIKE then Progress(data, limit, count, count + 1, true, error')
            else Progress(data, limit, count + 1, count + 1, data[count] == NEWLINE, error')
  {
    StoredStep(data, count, limit - count);
  }

  /** Takes the next character of a line. */
  method TakeNext(file: File, count: nat, ghost from: nat, ghost data: seq<Byte>, ghost limit: nat, ghost quiet: int, ghost failed: bool)
    returns (c: int, ghost taken: nat)
    requires count < limit && LineAt(file, from, data, limit, count, count, false) && Excused(file, quiet, failed)
    modifies file, file.buffer, file.fat`fatSector, file.fat.fatBuffer, file.fat.partition.drive`requests
    ensures file.Valid() && Excused(file, quiet, failed)
    ensures if c == END then LineAt(file, from, data, limit, count, taken, true)
            else && count < |data| && c == SignedChar(data[count])
                 && LineAt(file, from, data, limit, count + 1, count + 1, c == NEWLINE as int)
  {
    ghost var at, error := file.position, file.error;
    c := NextChar(file, quiet, failed);
    if file.position == at {
      taken := count;
      ProgressEnds(data, limit, count, error, file.error);
    } else {
      taken := count + 1;
      ProgressTakes(data, limit, count, error, file.error);
    }
  }

  lemma CharBack(b: Byte)
    ensures ToChar(SignedChar(b)) == b
  {
  }

  /** Stores a character that was taken. */
  method AppendByte(s: array<Byte>, count: nat, c: int, file: File, ghost from: nat, ghost data: seq<Byte>, ghost limit: nat,
                    ghost quiet: int, ghost failed: bool)
    requires s != file.buffer && s != file.fat.fatBuffer && count < limit <= s.Length
    requires count < |data| && s[..count] == data[..count] && c == SignedChar(data[count])
    requires LineAt(file, from, data, limit, count + 1, count + 1, c == NEWLINE as int) && Excused(file, quiet, failed)
    modifies s
    ensures LineSoFar(file, s, from, data, limit, count + 1, count + 1, c == NEWLINE as int) && Excused(file, quiet, failed)
  {
    s[count] := ToChar(c);
    CharBack(data[count]);
    assert s[..count + 1] == s[..count] + [data[count]];
  }

  /** One round of fgets. */
  method StoreNext(file: File, s: array<Byte>, count: nat, ghost from: nat, ghost data: seq<Byte>, ghost limit: nat,
                   ghost quiet: int, ghost failed: bool)
    returns (count': nat, stop: bool, ghost taken: nat)
    requires s != file.buffer && s != file.fat.fatBuffer && count < limit
    requires LineSoFar(file, s, from, data, limit, count, count, false) && Excused(file, quiet, failed)
    modifies file, file.buffer, s, file.fat`fatSector, file.fat.fatBuffer, file.fat.partition.drive`requests
    ensures LineSoFar(file, s, from, data, limit, count', taken, stop) && Excused(file, quiet, failed)
    ensures count' == count + 1 || (stop && count' == count)
  {
    var c;
    c, taken := TakeNext(file, count, from, data, limit, quiet, failed);
    if c == END {
      count', stop := count, true;
    } else {
      AppendByte(s, count, c, file, from, data, limit, quiet, failed);
      count', stop, taken := count + 1, c == NEWLINE as int, count + 1;
    }
  }

  /** Reads a line into `s` and ends it with a NUL; 0, standing for NULL, when nothing was stored.
      Without an error the file then stands behind what was taken from it, so that the next call goes
      on there. */
  method FGetS(file: File, s: array<Byte>, n: int) returns (count: nat)
    requires file.Valid() && n <= s.Length && s != file.buffer && s != file.fat.fatBuffer
    modifies file, file.buffer, s, file.fat`fatSector, file.fat.fatBuffer, file.fat.partition.drive`requests
    ensures file.Valid() && count <= |old(Rest(file))| && (n > 0 ==> count < n) && (n <= 0 ==> count == 0)
    ensures s[..count] == old(Rest(file))[..count]
    ensures count > 0 ==> s[count] == 0
    ensures old(file.fat.Requests()) <= file.fat.Requests()
    ensures file.error && !old(file.error) ==> !(file.fat.Quiet(old(file.fat.Requests()), file.fat.Requests()) && file.Intact())
    ensures var (data, limit) := (old(Rest(file)), if n > 0 then n - 1 else 0);
            !file.error ==> count == StoredLength(data, limit) && Rest(file) == data[TakenLength(data, limit)..]
                            && file.position == old(file.position) + TakenLength(data, limit)
    ensures file.position == old(file.position) + count
            || (file.position == old(file.position) + count + 1 && count < |old(Rest(file))| && old(Rest(file))[count] == LOOKALIKE)
  {
    ghost var data, from, quiet, failed := Rest(file), file.position, file.fat.Requests(), file.error;
    ghost var limit: nat := if n > 0 then n - 1 else 0;
    ghost var taken := 0;
    count := 0;
    var stop := false;
    while count < n - 1 && !stop
      invariant LineSoFar(file, s, from, data, limit, count, taken, stop) && Excused(file, quiet, failed)
      decreases n - count, !stop
    {
      count, stop, taken := StoreNext(file, s, count, from, data, limit, quiet, failed);
    }
    if count != 0 {
      s[count] := 0;
    }
  }
}
