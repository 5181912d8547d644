/**
 * FileTableModel: the directory listing table. A row-indexed view of the
 * entries most recently handed to it, with a fixed ten-column schema.
 */
module TableModel {
  import opened Disk

  /** The column headers, in column order. */
  const COLUMNS: seq<string> := ["Icon", "File", "Path/name", "Size", "Last Modified", "R", "W", "E", "D", "F"]

  /** The Java class a column declares for its values. */
  datatype ColumnClass = ImageIconClass | StringClass | LongClass | DateClass | BooleanClass

  /**
   * A cell value. The icon and the display name come from FileSystemView and
   * are kept opaque: the model records only whose icon or name they are.
   */
  datatype Cell =
    | SystemIcon(of: Path)
    | SystemDisplayName(of: Path)
    | PathName(path: Path)
    | LongValue(n: int)
    | BooleanValue(b: bool)
    | Text(s: string)

  /** The Java class of the object a cell holds. */
  function ClassOf(v: Cell): ColumnClass {
    match v
    case SystemIcon(_) => ImageIconClass
    case SystemDisplayName(_) => StringClass
    case PathName(_) => StringClass
    case LongValue(_) => LongClass
    case BooleanValue(_) => BooleanClass
    case Text(_) => StringClass
  }

  class FileTableModel {
    var files: seq<Entry>

    /** The no-argument constructor: an empty table. */
    constructor ()
      ensures files == [] && RowCount() == 0
    {
      files := [];
    }

    /** The constructor over an array of files stores the array as it is. */
    constructor FromFiles(files: seq<Entry>)
      ensures this.files == files && RowCount() == |files|
    {
      this.files := files;
    }

    function RowCount(): (n: nat)
      reads this
      ensures n == |files|
    {
      |files|
    }

    /** getFile indexes the array directly, so the row must be in range. */
    function GetFile(row: int): (e: Entry)
      reads this
      requires 0 <= row < |files|
      ensures e == files[row] && e in files
    {
      files[row]
    }

    /** Replaces the rows wholesale: nothing of the previous rows remains. */
    method SetFiles(newFiles: seq<Entry>)
      modifies this
      ensures files == newFiles
      ensures RowCount() == |newFiles| && forall i :: 0 <= i < |newFiles| ==> GetFile(i) == newFiles[i]
    {
      files := newFiles;
    }

    function ColumnCount(): (n: nat)
      ensures n == 10
    {
      |COLUMNS|
    }

    /** getColumnName indexes the header array directly, so the column must be in range. */
    function ColumnName(column: int): (name: string)
      requires 0 <= column < ColumnCount()
      ensures column == 0 ==> name == "Icon"
      ensures column == 1 ==> name == "File"
      ensures column == 2 ==> name == "Path/name"
      ensures column == 3 ==> name == "Size"
      ensures column == 4 ==> name == "Last Modified"
      ensures column == 5 ==> name == "R"
      ensures column == 6 ==> name == "W"
      ensures column == 7 ==> name == "E"
      ensures column == 8 ==> name == "D"
      ensures column == 9 ==> name == "F"
    {
      COLUMNS[column]
    }

    function ColumnClass(column: int): (c: ColumnClass)
      ensures c == ImageIconClass <==> column == 0
      ensures c == LongClass <==> column == 3
      ensures c == DateClass <==> column == 4
      ensures c == BooleanClass <==> 5 <= column <= 9
      ensures c == StringClass <==> column == 1 || column == 2 || column < 0 || column > 9
    {
      match column
      case 0 => ImageIconClass
      case 3 => LongClass
      case 4 => DateClass
      case 5 => BooleanClass
      case 6 => BooleanClass
      case 7 => BooleanClass
      case 8 => BooleanClass
      case 9 => BooleanClass
      case _ => StringClass
    }

    /** getValueAt indexes the array before it looks at the column, so the row must be in range. */
    function ValueAt(row: int, column: int): (v: Cell)
      reads this
      requires 0 <= row < |files|
      ensures column == 0 ==> v == SystemIcon(files[row].path)
      ensures column == 1 ==> v == SystemDisplayName(files[row].path)
      ensures column == 2 ==> v == PathName(files[row].path)
      ensures column == 3 ==> v == LongValue(files[row].length)
      ensures column == 4 ==> v == LongValue(files[row].lastModified)
      ensures column == 5 ==> v == BooleanValue(files[row].canRead)
      ensures column == 6 ==> v == BooleanValue(files[row].canWrite)
      ensures column == 7 ==> v == BooleanValue(files[row].canExecute)
      ensures column == 8 ==> v == BooleanValue(files[row].isDirectory)
      ensures column == 9 ==> v == BooleanValue(files[row].isFile)
      ensures !(0 <= column < ColumnCount()) ==> v == Text("")
    {
      var file := files[row];
      match column
      case 0 => SystemIcon(file.path)
      case 1 => SystemDisplayName(file.path)
      case 2 => PathName(file.path)
      case 3 => LongValue(file.length)
      case 4 => LongValue(file.lastModified)
      case 5 => BooleanValue(file.canRead)
      case 6 => BooleanValue(file.canWrite)
      case 7 => BooleanValue(file.canExecute)
      case 8 => BooleanValue(file.isDirectory)
      case 9 => BooleanValue(file.isFile)
      case _ => Text("")
    }

    /**
     * Every cell holds an object of its column's declared class, except the
     * "Last Modified" column: it declares Date but getValueAt hands it a Long.
     */
    lemma ValueMatchesColumnClass(row: int, column: int)
      requires 0 <= row < |files|
      ensures column != 4 ==> ClassOf(ValueAt(row, column)) == ColumnClass(column)
      ensures column == 4 ==> ClassOf(ValueAt(row, column)) == LongClass && ColumnClass(column) == DateClass
    {
    }
  }
}
