/** The object-store upload of a table (utils/r2_uploader.py), reduced to
    its one decision: an empty table is skipped, any other table is put under
    the given key. Serialisation to Parquet and the network put are not
    modelled; a failed put is only logged, so it does not change the
    decision. */
module Uploader {
  import opened Common

  /** A put of `table` under `key` in the bucket. */
  datatype Upload = Upload(key: string, table: Table)

  /** `df.empty`: no columns or no rows. */
  predicate IsEmpty(t: Table)
  {
    |t.columns| == 0 || |t.rows| == 0
  }

  /** `upload_df_to_r2`: the put it attempts, if any. */
  function UploadTable(t: Table, key: string): (u: Option<Upload>)
    ensures u.None? <==> (|t.rows| == 0 || |t.columns| == 0)
    ensures u.Some? ==> u.value.key == key && u.value.table == t
  {
    if IsEmpty(t) then None else Some(Upload(key, t))
  }
}
