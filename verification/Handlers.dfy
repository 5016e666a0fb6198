/**
 * The rate-limit file and the endpoints that update it in place, proved to take the steps of
 * Endpoints.dfy. The outside world (reading, writing, docker, nginx) is the parameter w.
 */
module Handlers {
  import opened Wrappers
  import D = Document
  import E = Endpoints
  import opened RateLimitDocs

  datatype FileError = Unreadable | NotSane | NotWritten

  /** A copy of the file to roll back to. */
  datatype Backup = Backup(content: string)

  class RateLimitFile {
    var content: string

    constructor (initial: string)
      ensures content == initial
    {
      content := initial;
    }

    method Read(w: E.World) returns (r: Result<string, FileError>)
      ensures r == if w.readOk then Ok(content) else Err(Unreadable)
    {
      return if w.readOk then Ok(content) else Err(Unreadable);
    }

    /** Check, take a backup, install. A write that fails leaves the file as it was. */
    method Write(newContent: string, w: E.World) returns (r: Result<Backup, FileError>)
      modifies this
      ensures if r.Ok? then r.value.content == old(content) && content == newContent else content == old(content)
      ensures r.Ok? <==> E.SanityCheck(newContent) && w.writeOk
    {
      if !E.SanityCheck(newContent) { return Err(NotSane); }
      var backup := Backup(content);
      if !w.writeOk { return Err(NotWritten); }
      content := newContent;
      return Ok(backup);
    }

    method Restore(backup: Backup, w: E.World)
      modifies this
      ensures content == if w.restoreOk then backup.content else old(content)
    {
      if w.restoreOk { content := backup.content; }
    }
  }

  class App {
    const file: RateLimitFile
    const valid: string -> bool

    constructor (file: RateLimitFile, valid: string -> bool)
      ensures this.file == file && this.valid == valid
    {
      this.file, this.valid := file, valid;
    }

    /** Install, reload, and roll back unless nginx took the new content. */
    method SaveAndReload(content: string, w: E.World) returns (accepted: bool)
      modifies file
      ensures (file.content, accepted) == E.Save(old(file.content), content, w)
    {
      if !E.SanityCheck(content) { return false; }
      var backup := file.Write(content, w);
      if backup.Err? { return false; }
      match w.reload {
        case DockerError =>
          file.Restore(backup.value, w);
          return false;
        case NonZeroExit =>
          file.Restore(backup.value, w);
          return false;
        case Accepted =>
          return true;
      }
    }

    method HandleSave(content: string, w: E.World) returns (accepted: bool)
      modifies file
      ensures (file.content, accepted) == E.Step(valid, old(file.content), E.SaveRaw(content), w)
    {
      hide D.ParseDoc, E.Save;
      accepted := SaveAndReload(content, w);
    }

    /** Read and parse: the common start of the override endpoints. */
    method Load(w: E.World) returns (doc: RateLimitDoc?)
      ensures doc != null ==> fresh(doc)
      ensures doc != null <==> w.readOk && D.ParseDoc(file.content).Ok?
      ensures doc != null ==> doc.View() == D.ParseDoc(file.content).value
    {
      hide D.ParseDoc;
      var current := file.Read(w);
      if current.Err? { return null; }
      var parsed := RateLimitDoc.ParseDoc(current.value);
      if parsed.Err? { return null; }
      return parsed.value;
    }

    method EmitAndSave(doc: RateLimitDoc, w: E.World) returns (accepted: bool)
      modifies file
      ensures (file.content, accepted) ==
              match D.Emit(old(doc.View()))
              case Err(_) => (old(file.content), false)
              case Ok(out) => E.Save(old(file.content), out, w)
    {
      hide D.Emit, E.Save;
      var out := doc.Emit();
      if out.Err? { return false; }
      accepted := SaveAndReload(out.value, w);
    }

    method HandleOverrideSet(ip: string, rate: string, exempt: bool, w: E.World) returns (accepted: bool)
      modifies file
      ensures (file.content, accepted) == E.Step(valid, old(file.content), E.SetRule(ip, rate, exempt), w)
    {
      hide D.ParseDoc, D.Emit, D.Migrate, D.SetOverride, E.Save;
      var doc := Load(w);
      if doc == null { return false; }
      if !doc.hasManaged && rate != "" {
        var error := doc.Migrate();
        if error.Some? { return false; }
      }
      var error := doc.SetOverride(valid, ip, rate, exempt);
      if error.Some? { return false; }
      accepted := EmitAndSave(doc, w);
    }

    method HandleOverrideClear(ip: string, w: E.World) returns (accepted: bool)
      modifies file
      ensures (file.content, accepted) == E.Step(valid, old(file.content), E.ClearRule(ip), w)
    {
      hide D.ParseDoc, D.Emit, D.ClearOverride, E.Save;
      var doc := Load(w);
      if doc == null { return false; }
      doc.ClearOverride(ip);
      accepted := EmitAndSave(doc, w);
    }

    method HandleGlobalSet(rate: string, w: E.World) returns (accepted: bool)
      modifies file
      ensures (file.content, accepted) == E.Step(valid, old(file.content), E.SetGlobalRate(rate), w)
    {
      hide D.ParseDoc, D.Emit, D.SetGlobal, E.Save;
      var doc := Load(w);
      if doc == null { return false; }
      var error := doc.SetGlobal(rate);
      if error.Some? { return false; }
      accepted := EmitAndSave(doc, w);
    }

    method HandleMigrate(w: E.World) returns (accepted: bool)
      modifies file
      ensures (file.content, accepted) == E.Step(valid, old(file.content), E.MigrateFile, w)
    {
      hide D.ParseDoc, D.Emit, D.Migrate, E.Save;
      var doc := Load(w);
      if doc == null { return false; }
      var error := doc.Migrate();
      if error.Some? { return false; }
      accepted := EmitAndSave(doc, w);
    }
  }
}
