/** The SDO abort codes of `include/lely/co/sdo.h` that are used in this model. */
module AbortCodes {
  const AC_TOGGLE := 0x0503_0000
  const AC_TIMEOUT := 0x0504_0000
  const AC_NO_CS := 0x0504_0001
  const AC_BLK_SIZE := 0x0504_0002
  const AC_BLK_SEQ := 0x0504_0003
  const AC_BLK_CRC := 0x0504_0004
  const AC_NO_MEM := 0x0504_0005
  const AC_NO_WRITE := 0x0601_0002
  const AC_PDO_LEN := 0x0604_0042
  const AC_TYPE_LEN_HI := 0x0607_0012
  const AC_TYPE_LEN_LO := 0x0607_0013
  const AC_NO_SUB := 0x0609_0011
  const AC_PARAM_VAL := 0x0609_0030
  const AC_NO_SDO := 0x060a_0023
  const AC_ERROR := 0x0800_0000
}
