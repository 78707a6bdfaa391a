/** Credentials in flash, bluetooth/ble_wifi_provisioner/wifi_prov_lib.c: one page holding the SSID, a
    zero, the password, and zeros. Erasing sets all bits of a sector; programming only clears bits. */
module WifiCredentials {

  type Byte = bv8

  const FLASH_PAGE_SIZE := 256
  const FLASH_SECTOR_SIZE := 4096
  const SSID_SIZE := 33
  const PASSWORD_SIZE := 64

  function And8(a: Byte, b: Byte): Byte {
    a & b
  }

  lemma ProgramErased(b: Byte)
    ensures And8(0xFF, b) == b
  {
  }

  /** The contents of a C string. */
  ghost predicate NulFree(s: seq<Byte>) {
    forall i :: 0 <= i < |s| ==> s[i] != 0
  }

  /** What the credential buffers can hold with their terminators. */
  ghost predicate CredentialsOk(ssid: seq<Byte>, password: seq<Byte>) {
    NulFree(ssid) && NulFree(password) && |ssid| < SSID_SIZE && |password| < PASSWORD_SIZE
  }

  function Padded(s: seq<Byte>, size: nat): (r: seq<Byte>)
    requires |s| <= size
    ensures |r| == size
  {
    s + seq(size - |s|, _ => 0)
  }

  /** The page as it is saved. */
  function Encode(ssid: seq<Byte>, password: seq<Byte>): (page: seq<Byte>)
    requires |ssid| < SSID_SIZE && |password| < PASSWORD_SIZE
    ensures |page| == FLASH_PAGE_SIZE
  {
    Padded(ssid + [0] + password, FLASH_PAGE_SIZE)
  }

  /** The first zero at or after `from`, or the end. */
  function FirstZero(page: seq<Byte>, from: nat): (z: nat)
    requires from <= |page|
    ensures from <= z <= |page| && (z < |page| ==> page[z] == 0)
    ensures forall i :: from <= i < z ==> page[i] != 0
    decreases |page| - from
  {
    if from == |page| || page[from] == 0 then from else FirstZero(page, from + 1)
  }

  lemma FirstZeroIs(page: seq<Byte>, from: nat, z: nat)
    requires from <= z < |page| && page[z] == 0 && forall i :: from <= i < z ==> page[i] != 0
    ensures FirstZero(page, from) == z
  {
  }

  /** The page marked as never written, which reading replaces by empty credentials. */
  predicate Unwritten(page: seq<Byte>)
    requires |page| >= FLASH_PAGE_SIZE
  {
    page[0] == 0xFF
  }

  /** Two zeros end strings that fit the credential buffers. */
  predicate Readable(page: seq<Byte>)
    requires |page| == FLASH_PAGE_SIZE
  {
    var z := FirstZero(page, 0);
    z < SSID_SIZE && FirstZero(page, z + 1) < z + 1 + PASSWORD_SIZE
  }

  /** The pair that a page stands for. */
  function Stored(page: seq<Byte>): (pair: (seq<Byte>, seq<Byte>))
    requires |page| == FLASH_PAGE_SIZE && (Unwritten(page) || Readable(page))
    ensures |pair.0| < SSID_SIZE && |pair.1| < PASSWORD_SIZE
  {
    if Unwritten(page) then ([], []) else
      var z := FirstZero(page, 0);
      (page[..z], page[z + 1..FirstZero(page, z + 1)])
  }

  lemma EncodedZeros(ssid: seq<Byte>, password: seq<Byte>)
    requires CredentialsOk(ssid, password)
    ensures var page := Encode(ssid, password);
            && FirstZero(page, 0) == |ssid| && FirstZero(page, |ssid| + 1) == |ssid| + 1 + |password|
            && page[..|ssid|] == ssid && page[|ssid| + 1..|ssid| + 1 + |password|] == password
            && Readable(page)
  {
    hide Encode, FirstZero;
    var page := Encode(ssid, password);
    EncodedBytes(ssid, password);
    FirstZeroIs(page, 0, |ssid|);
    FirstZeroIs(page, |ssid| + 1, |ssid| + 1 + |password|);
  }

  lemma EncodedBytes(ssid: seq<Byte>, password: seq<Byte>)
    requires CredentialsOk(ssid, password)
    ensures var page, m, n := Encode(ssid, password), |ssid|, |ssid| + 1 + |password|;
            && page[..m] == ssid && page[m] == 0 && page[m + 1..n] == password && page[n] == 0
            && (forall i :: 0 <= i < m ==> page[i] != 0)
            && (forall i :: m + 1 <= i < n ==> page[i] != 0)
  {
    var page, m := Encode(ssid, password), |ssid|;
    assert forall i :: 0 <= i < m ==> page[i] == ssid[i];
    assert forall i :: m + 1 <= i < m + 1 + |password| ==> page[i] == password[i - m - 1];
  }

  /** A saved pair is read back as it was exactly when its SSID does not start with 0xFF. */
  lemma SavedPairIsStored(ssid: seq<Byte>, password: seq<Byte>)
    requires CredentialsOk(ssid, password)
    ensures Unwritten(Encode(ssid, password)) || Readable(Encode(ssid, password))
    ensures Stored(Encode(ssid, password)) == (ssid, password) <==> ssid == [] || ssid[0] != 0xFF
    ensures ssid != [] && ssid[0] == 0xFF ==> Stored(Encode(ssid, password)) == ([], [])
  {
    EncodedZeros(ssid, password);
    assert ssid != [] ==> Encode(ssid, password)[0] == ssid[0];
    assert ssid == [] ==> Encode(ssid, password)[0] == 0;
  }

  class Credentials {
    const flash: array<Byte>    // the sector at FLASH_TARGET_OFFSET
    const ssid: array<Byte>
    const password: array<Byte>

    ghost predicate Valid()
      reads this, flash
    {
      && flash.Length == FLASH_SECTOR_SIZE && ssid.Length == SSID_SIZE && password.Length == PASSWORD_SIZE
      && flash != ssid && flash != password && ssid != password
      && (Unwritten(Page()) || Readable(Page()))
    }

    ghost function Page(): (page: seq<Byte>)
      requires flash.Length == FLASH_SECTOR_SIZE
      reads flash
      ensures |page| == FLASH_PAGE_SIZE
    {
      flash[..FLASH_PAGE_SIZE]
    }

    constructor ()
      ensures Valid() && forall i :: 0 <= i < flash.Length ==> flash[i] == 0xFF
    {
      flash := new Byte[FLASH_SECTOR_SIZE](_ => 0xFF);
      ssid := new Byte[SSID_SIZE](_ => 0);
      password := new Byte[PASSWORD_SIZE](_ => 0);
      new;
      assert Page()[0] == 0xFF;
    }

    /** erase_credentials; result is what flash_safe_execute reports, 0 if it ran the erase. */
    method EraseCredentials(result: int) returns (rc: int)
      requires Valid()
      modifies flash
      ensures rc == result && Valid()
      ensures rc == 0 ==> forall i :: 0 <= i < FLASH_SECTOR_SIZE ==> flash[i] == 0xFF
      ensures rc != 0 ==> flash[..] == old(flash[..])
    {
      rc := result;
      if rc == 0 {
        forall i | 0 <= i < FLASH_SECTOR_SIZE {
          flash[i] := 0xFF;
        }
        assert Page()[0] == 0xFF;
      }
    }

    /** flash_range_program on the first page. */
    method ProgramPage(data: array<Byte>)
      requires flash.Length == FLASH_SECTOR_SIZE && data.Length == FLASH_PAGE_SIZE && data != flash
      modifies flash
      ensures forall i :: 0 <= i < FLASH_PAGE_SIZE ==> flash[i] == And8(old(flash[i]), data[i])
      ensures forall i :: FLASH_PAGE_SIZE <= i < FLASH_SECTOR_SIZE ==> flash[i] == old(flash[i])
    {
      hide And8;
      forall i | 0 <= i < FLASH_PAGE_SIZE {
        flash[i] := And8(flash[i], data[i]);
      }
    }

    /** The loops of save_credentials that fill the page buffer. */
    method FillPage(s: seq<Byte>, p: seq<Byte>) returns (flashData: array<Byte>)
      requires |s| < SSID_SIZE && |p| < PASSWORD_SIZE
      ensures fresh(flashData) && flashData[..] == Encode(s, p)
    {
      flashData := new Byte[FLASH_PAGE_SIZE](_ => 0);
      var i := 0;
      while i < |s|
        invariant 0 <= i <= |s|
        invariant forall k :: 0 <= k < FLASH_PAGE_SIZE ==> flashData[k] == if k < i then s[k] else 0
      {
        flashData[i] := s[i];
        i := i + 1;
      }
      i := 0;
      while i < |p|
        invariant 0 <= i <= |p|
        invariant forall k :: 0 <= k < FLASH_PAGE_SIZE ==>
          flashData[k] == if k < |s| then s[k] else if |s| < k <= |s| + i then p[k - |s| - 1] else 0
      {
        flashData[i + |s| + 1] := p[i];
        i := i + 1;
      }
    }

    /** save_credentials */
    method SaveCredentials(s: seq<Byte>, p: seq<Byte>, eraseResult: int, programResult: int) returns (rc: int)
      requires Valid() && CredentialsOk(s, p)
      modifies flash
      ensures Valid()
      ensures rc == if eraseResult != 0 then eraseResult else programResult
      ensures rc == 0 ==> Page() == Encode(s, p)
      ensures rc == 0 ==> forall i :: FLASH_PAGE_SIZE <= i < FLASH_SECTOR_SIZE ==> flash[i] == 0xFF
      ensures eraseResult != 0 ==> flash[..] == old(flash[..])
      ensures eraseResult == 0 && programResult != 0 ==> Stored(Page()) == ([], [])
    {
      hide Encode, Stored, And8;
      var flashData := FillPage(s, p);
      rc := EraseCredentials(eraseResult);
      if rc != 0 {
        return;
      }
      rc := programResult;
      if rc == 0 {
        ProgramPage(flashData);
        forall i | 0 <= i < FLASH_PAGE_SIZE
          ensures Page()[i] == Encode(s, p)[i]
        {
          ProgramErased(flashData[i]);
          assert flashData[..][i] == flashData[i];
        }
        assert Page() == Encode(s, p);
        SavedPairIsStored(s, p);
      } else {
        ErasedIsEmpty(Page());
      }
    }

    /** read_credentials; results are those of the flash operations, should a blank page need them.
        halted: the hard_assert on them failed. */
    method ReadCredentials(eraseResult: int, programResult: int) returns (halted: bool)
      requires Valid()
      modifies flash, ssid, password
      ensures Valid()
      ensures halted <==> old(Unwritten(Page())) && (eraseResult != 0 || programResult != 0)
      ensures !halted ==> !Unwritten(Page()) && Stored(Page()) == old(Stored(Page()))
      ensures !halted ==> ssid[..] == Padded(old(Stored(Page())).0, SSID_SIZE)
      ensures !halted ==> password[..] == Padded(old(Stored(Page())).1, PASSWORD_SIZE)
      ensures !old(Unwritten(Page())) ==> flash[..] == old(flash[..])
    {
      hide Encode;
      halted := false;
      if flash[0] == 255 {
        assert Unwritten(Page());
        var rc := SaveCredentials([], [], eraseResult, programResult);
        if rc != 0 {
          halted := true;
          return;
        }
        SavedPairIsStored([], []);
        EncodedBytes([], []);
      }
      ghost var page := Page();
      var tSsid, tPassword := SplitPage();
      CopyAll(tSsid, ssid);
      CopyAll(tPassword, password);
      assert Page() == page;
    }

    /** The parsing loop of read_credentials. */
    method SplitPage() returns (tSsid: array<Byte>, tPassword: array<Byte>)
      requires Valid() && !Unwritten(Page())
      ensures fresh(tSsid) && fresh(tPassword) && tSsid != tPassword
      ensures tSsid[..] == Padded(Stored(Page()).0, SSID_SIZE)
        && tPassword[..] == Padded(Stored(Page()).1, PASSWORD_SIZE)
    {
      hide Padded, Stored, Readable, FirstZero;
      ghost var page := Page();
      PageShape(page);
      ghost var z1 := FirstZero(page, 0);
      ghost var z2 := FirstZero(page, z1 + 1);
      tSsid := new Byte[SSID_SIZE](_ => 0);
      tPassword := new Byte[PASSWORD_SIZE](_ => 0);
      var counter, ssidLen, i := 0, 0, 0;
      while i < FLASH_PAGE_SIZE
        invariant 0 <= i <= FLASH_PAGE_SIZE && Page() == page
        invariant if i <= z1 then counter == 0 else counter == 1 && ssidLen == z1 && i <= z2
        invariant forall k :: 0 <= k < SSID_SIZE ==> tSsid[k] == if k < i && k < z1 then page[k] else 0
        invariant forall k :: 0 <= k < PASSWORD_SIZE ==>
          tPassword[k] == if k + z1 + 1 < i && k + z1 + 1 < z2 then page[k + z1 + 1] else 0
      {
        assert flash[i] == page[i];
        if flash[i] == 0 && counter == 0 {
          counter := counter + 1;
          ssidLen := i;
        } else if flash[i] == 0 && counter == 1 {
          break;
        } else if counter == 0 {
          tSsid[i] := flash[i];
        } else if counter == 1 {
          tPassword[i - ssidLen - 1] := flash[i];
        }
        i := i + 1;
      }
      IsPadded(tSsid[..], page[..z1], SSID_SIZE);
      IsPadded(tPassword[..], page[z1 + 1..z2], PASSWORD_SIZE);
    }

    method CopyAll(from: array<Byte>, to: array<Byte>)
      requires from.Length == to.Length && from != to
      modifies to
      ensures to[..] == from[..]
    {
      forall k | 0 <= k < to.Length {
        to[k] := from[k];
      }
    }

    /** What was saved is what is read, again and again. */
    method SaveThenReadTwice(s: seq<Byte>, p: seq<Byte>)
      requires Valid() && CredentialsOk(s, p)
      modifies flash, ssid, password
      ensures Valid()
      ensures var kept := s == [] || s[0] != 0xFF;
              && ssid[..] == Padded(if kept then s else [], SSID_SIZE)
              && password[..] == Padded(if kept then p else [], PASSWORD_SIZE)
              && Stored(Page()) == (if kept then (s, p) else ([], []))
    {
      hide Encode, Padded, Stored, Readable;
      SavedPairIsStored(s, p);
      var rc := SaveCredentials(s, p, 0, 0);
      var halted := ReadCredentials(0, 0);
      ghost var first, firstPassword := ssid[..], password[..];
      halted := ReadCredentials(1, 1);
      assert !halted && ssid[..] == first && password[..] == firstPassword;
    }
  }

  lemma PageShape(page: seq<Byte>)
    requires |page| == FLASH_PAGE_SIZE && !Unwritten(page) && Readable(page)
    ensures var z := FirstZero(page, 0);
            z < SSID_SIZE && FirstZero(page, z + 1) < z + 1 + PASSWORD_SIZE
            && Stored(page) == (page[..z], page[z + 1..FirstZero(page, z + 1)])
  {
  }

  lemma IsPadded(a: seq<Byte>, s: seq<Byte>, size: nat)
    requires |a| == size >= |s| && forall k :: 0 <= k < size ==> a[k] == if k < |s| then s[k] else 0
    ensures a == Padded(s, size)
  {
  }

  lemma ErasedIsEmpty(page: seq<Byte>)
    requires |page| == FLASH_PAGE_SIZE && page[0] == 0xFF
    ensures Stored(page) == ([], [])
  {
  }
}
