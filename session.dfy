/**
 * The editing session of tegra-eeprom-tool.c (`struct context_s`): the
 * EEPROM handle, the logical record being edited, and the `havedata`,
 * `readonly` and `data_modified` flags, with the commands `show`, `get`,
 * `set`, `verify` and `write` and the write-back on exit.
 *
 * What the commands print on standard output is collected in `stdout`;
 * messages on standard error are not modelled, only the status they go with.
 * Command-line arguments are C strings, given as NUL-free byte sequences.
 */
module Session {
  import opened Libc
  import opened Layout
  import opened EepromCodec
  import opened CodecProperties
  import opened Eeprom
  import opened MacText
  import opened Fields
  import opened Commands

  /**
   * The state of one run of the tool (`struct context_s`). `readonly` and
   * `mtype` are fixed when the session starts; `data`, `havedata` and
   * `data_modified` change as commands run.
   */
  class ToolContext {
    /** The EEPROM handle (`e`). */
    const e: EepromContext
    const mtype: ModuleType
    /** The logical record being edited. */
    var data: ModuleEeprom
    /** Set when the record was read from a valid EEPROM, or has been written. */
    var havedata: bool
    const readonly: bool
    /** Set by a successful `set`, cleared by a successful `write`. */
    var dataModified: bool
    /** The lines printed on standard output so far, one `printf` each. */
    var stdout: seq<seq<Byte>>

    /**
     * The session agrees with its handle, and only a writable session can
     * have unsaved changes.
     */
    ghost predicate Valid()
      reads this, e
    {
      e.Valid() && mtype == e.mtype && readonly == e.readonly && (dataModified ==> !readonly)
    }

    /**
     * The start of `main` once the handle is open: the record is read (the
     * cleared record if the EEPROM is not valid), `havedata` says whether the
     * read succeeded, and nothing is modified yet.
     */
    constructor (e: EepromContext)
      requires e.Valid()
      ensures Valid() && this.e == e
      ensures data == Decode(e.data[..], e.mtype).1
      ensures havedata <==> RecordValid(e.data[..], e.mtype)
      ensures readonly == e.IsReadonly() && !dataModified && stdout == []
    {
      this.e := e;
      mtype := e.mtype;
      var st, rec := e.Read();
      data := rec;
      havedata := st == Ok;
      readonly := e.IsReadonly();
      dataModified := false;
      stdout := [];
    }

    /**
     * `do_show`: refused (1) when there is neither a valid record nor a
     * change; otherwise prints one line per field the module has, and
     * returns 0.
     */
    method DoShow() returns (ret: int)
      requires Valid()
      modifies this`stdout
      ensures ret == 0 <==> havedata || dataModified
      ensures ret == 0 ==> stdout == old(stdout) + ShowLines(data, ShownFields(mtype))
      ensures ret != 0 ==> ret == 1 && stdout == old(stdout)
    {
      if !havedata && !dataModified {
        return 1;
      }
      var out := ListFields(data, mtype);
      stdout := stdout + out;
      ret := 0;
    }

    /** Whether `get args` succeeds, checked in the order `do_get` checks. */
    predicate GetAccepted(args: seq<seq<Byte>>)
      reads this
    {
      |args| >= 1 && FieldIndex(args[0]) >= 0 && (havedata || dataModified) && Supported(mtype, FieldIndex(args[0]))
    }

    /**
     * `do_get`: for a known field the module has, while there is a valid
     * record or a change, prints the field's value (and for the part number
     * its type) and returns 0; otherwise returns 1 and prints nothing.
     */
    method DoGet(args: seq<seq<Byte>>) returns (ret: int)
      requires Valid() && forall k :: 0 <= k < |args| ==> NulFree(args[k])
      modifies this`stdout
      ensures ret == 0 || ret == 1
      ensures ret == 0 <==> GetAccepted(args)
      ensures ret == 0 ==> stdout == old(stdout) + [GetLine(data, FieldIndex(args[0]))]
      ensures ret != 0 ==> stdout == old(stdout)
    {
      if |args| < 1 {
        return 1;
      }
      var i := ParseFieldname(args[0]);
      if i < 0 {
        return 1;
      }
      if !havedata && !dataModified {
        return 1;
      }
      if !Supported(mtype, i) {
        return 1;
      }
      var line := GetField(data, i);
      stdout := stdout + [line];
      ret := 0;
    }

    /**
     * `do_set` on the session: the record becomes what `SetRecord` makes of
     * it, and a successful `set` marks it modified.
     */
    method DoSet(args: seq<seq<Byte>>) returns (ret: int)
      requires Valid() && forall k :: 0 <= k < |args| ==> NulFree(args[k])
      modifies this`data, this`dataModified
      ensures Valid()
      ensures ret == 0 || ret == 1
      ensures ret == 0 <==> SetAccepted(args, readonly, mtype)
      ensures ret == 0 ==> data == SetResult(old(data), args, readonly, mtype) && dataModified
      ensures ret != 0 ==> dataModified == old(dataModified)
      ensures ret != 0 && data != old(data) ==>
        |args| >= 3 && FieldIndex(args[0]) == 0 && !readonly && PartnumTypeWord(args[1]).Some?
        && |args[2]| > PartnumberLen && data == old(data).(partnumberType := PartnumTypeWord(args[1]).value)
      ensures ret != 0 ==>
        data == if |args| >= 3 && FieldIndex(args[0]) == 0 && !readonly && PartnumTypeWord(args[1]).Some?
                then old(data).(partnumberType := PartnumTypeWord(args[1]).value)
                else old(data)
    {
      ret, data := SetRecord(data, args, readonly, mtype);
      if ret == 0 {
        dataModified := true;
      }
    }

    /**
     * `do_verify`: refused while there are unsaved changes; otherwise
     * succeeds exactly when the cached raw record passes
     * `eeprom_data_valid`, and then says so.
     */
    method DoVerify() returns (ret: int)
      requires Valid()
      modifies this`stdout
      ensures ret == 0 || ret == 1
      ensures ret == 0 <==> !dataModified && RecordValid(e.data[..], mtype)
      ensures ret == 0 ==> stdout == old(stdout) + [Ascii("Verification successful\n")]
      ensures ret != 0 ==> stdout == old(stdout)
    {
      if dataModified {
        return 1;
      }
      var ok := e.DataValid();
      if !ok {
        return 1;
      }
      stdout := stdout + [Ascii("Verification successful\n")];
      ret := 0;
    }

    /**
     * `do_write`: refused on a read-only session, and when a valid record
     * was read and nothing changed. Otherwise `eeprom_write` prepares the
     * cache and sends it; on success the session holds data and no changes.
     * The prepared cache is valid whatever the device does
     * (`PreparedValid`), and after a successful write the device reads back
     * the record with the adjustments the raw layout imposes
     * (`ReadAfterWrite`).
     */
    method DoWrite(io: Transport) returns (ret: int)
      requires Valid()
      modifies e.data, e`device, this`havedata, this`dataModified
      ensures Valid()
      ensures readonly || (old(havedata) && !old(dataModified)) ==>
        (ret, e.data[..], e.device, havedata, dataModified)
        == (1, old(e.data[..]), old(e.device), old(havedata), old(dataModified))
      ensures !readonly && !(old(havedata) && !old(dataModified)) ==>
        (e.data[..], e.device, ret, havedata, dataModified)
        == (Prepared(old(e.data[..]), mtype, data), Delivered(io, e.data[..], old(e.device)),
            if io.WritesAll? then 0 else 1,
            io.WritesAll? || old(havedata), !io.WritesAll? && old(dataModified))
    {
      if readonly {
        return 1;
      }
      if havedata && !dataModified {
        return 1;
      }
      ret := Save(io);
    }

    /**
     * The `eeprom_write` call of `do_write` on a writable session, and the
     * flags it sets when the write succeeds.
     */
    method Save(io: Transport) returns (ret: int)
      requires Valid() && !readonly
      modifies e.data, e`device, this`havedata, this`dataModified
      ensures Valid()
      ensures (e.data[..], e.device, ret, havedata, dataModified)
        == (Prepared(old(e.data[..]), mtype, data), Delivered(io, e.data[..], old(e.device)),
            if io.WritesAll? then 0 else 1,
            io.WritesAll? || old(havedata), !io.WritesAll? && old(dataModified))
    {
      var st := e.Write(data, io);
      if st.Fail? {
        return 1;
      }
      MarkSaved();
      ret := 0;
    }

    /** The session after a successful `write`: the record is saved and is the device's. */
    method MarkSaved()
      requires Valid()
      modifies this`havedata, this`dataModified
      ensures Valid() && havedata && !dataModified
      ensures (e.data[..], e.device, data) == (old(e.data[..]), old(e.device), old(data))
    {
      havedata, dataModified := true, false;
    }

    /**
     * The exit path of `main`: unsaved changes are written; if that fails,
     * a command that had succeeded turns into the failure status -1, and a
     * command's own failure status is kept. The handle is closed either way.
     */
    method Depart(ret: int, io: Transport) returns (exit: int)
      requires Valid()
      modifies e.data, e`device, e`closed
      ensures e.closed
      ensures !dataModified ==> (exit, e.data[..], e.device) == (ret, old(e.data[..]), old(e.device))
      ensures dataModified ==>
        (e.data[..], e.device, exit)
        == (Prepared(old(e.data[..]), mtype, data), Delivered(io, e.data[..], old(e.device)),
            if io.WritesAll? || ret != 0 then ret else -1)
    {
      exit := ret;
      if dataModified {
        var saveret := e.Write(data, io);
        if saveret.Fail? {
          if exit == 0 {
            exit := -1;
          }
        }
      }
      e.Close();
    }
  }
}
